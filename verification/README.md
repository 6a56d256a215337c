# Verified model of the LukeyOS kernel core and its tree and time headers

Four parts of the repository are modelled in Dafny 4.11 and proved, each in the form that the C code has.

- `memory/`: physical pages from a byte bitmap, two-level page tables that live in those same pages, and the
  operations on address spaces: the kernel's own tables, creating, filling, copying and destroying them, growing a heap,
  copying bytes and program arguments into another address space. Physical memory is one array of pages. A
  ghost map gives every page in use one owner, and the invariant ties that map to the bits and to the entries
  of all tables, so nothing can alias.
- `scheduler/`: intrusive doubly linked lists, the scheduler, sleeping, recursive mutexes, counting semaphores,
  parents and children, and terminal input. `Scheduling` is a state machine whose steps are the interrupt-protected
  regions, put together as the code does it; `StepEffects` says of each step what becomes of every list and every
  task, and that this is all. `SchedulerRuns`, `SchedulerHistories` and `Families` prove what holds over all runs;
  class `Kernel` does the same steps on linked lists, field by field, and every method is proved to be its step.
- `trees/`: red-black trees with parent links and top-down splay trees. The link fields are a map that the
  methods rewrite one field at a time. A ghost tree says what the links hold, and a path names the position at
  which an operation works, so each loop is proved on values and each write on links. Ghost counters bound the
  steps: by the height of a red-black tree, and by a potential for sequences of splay operations.
- `time/`: 64-bit binary time arithmetic and the decimal conversions, with every wrap-around written out.

`common/` holds powers of two, integer widths, and the device by which a large predicate is handed on unopened.

How to read the main statements: `Given` and `Mapped` (memory) say what changed *and* that nothing else did;
`Inv` (scheduler) is the rule book of every reachable state; `Valid` of the trees is search order, parent links,
colours and black heights; `Value` of a `Bintime` is seconds times 2^64 plus the fraction.

Where the code and its words differ, the model follows the code:

- The comment at LukeyOS/start/source/kernel/ipc/mutex.c:46 says one unlock releases all locks; the code counts,
  and so does the model.
- memory_alloc_for_page_dir returns 0 when pages run out (LukeyOS/start/source/kernel/core/memory.c:277-281);
  `UserPages.AllocationOutcome` says exactly when the range is mapped and when -1 is returned.
- A failed allocation may lose one page (its table could not be had; it is freed by virtual address, which
  frees nothing). The invariant calls that page `Leaked`.
- memory_copy_uvm_data writes to physical page 0 when its first address lies inside a page that is missing below a
  table (LukeyOS/start/source/kernel/core/memory.c:441-450); `CopyData.CopyUvmData` says so.
- The Balance Theorem of LukeyOS/newlib/i686-elf/include/sys/tree.h:49-51 holds of searches, insertions, removals and
  minima and maxima (`SplayRuns.FromEmpty`), not of SPLAY_NEXT, whose walk nothing pays for (`SplayRuns.NextWalksAgain`).
- The bitmap search for two or more pages does not test the last one
  (LukeyOS/start/source/kernel/tools/bitmap.c:82-88); `Bitmaps.SearchIsSoundExactlyForOnePage` states it.
- A sleep of 2^32 - 9 milliseconds or more overflows to zero ticks and never ends (`SchedulerHistories.SleepsForever`).
- A child that exits after sys_wait has searched for one and before it waits is not noticed
  (LukeyOS/start/source/kernel/core/task.c:890-898): `Families.ExitMissed` is a run in which the parent waits for ever,
  `Families.ExitNoticed` says that an exit after the wait began is never missed.
- sbttons gives a positive number for a negative time (`Sbintimes.NsExact`).
- A key pressed while the ring is full but permits are outstanding is announced without a byte; `Ttys.InputHistory`
  counts such drops, `Ttys.DropHappens` is a run with one.
- LukeyOS/newlib/i686-elf/include/sys/time.h:176-179 promises the smallest possible conversion; it is missed for
  1953125 ns, and `Sbintimes.RoundedUp` says exactly when it is met.
- bintime_add counts a carry twice when a time is added to itself.

## Model

| member | source | states |
|---|---|---|
| Bitmaps.Bitmap.Init | LukeyOS/start/source/kernel/tools/bitmap.c:25-32 | the buffer holds `count` bits, all equal to the initial one |
| Bitmaps.Bitmap.GetBit | LukeyOS/start/source/kernel/tools/bitmap.c:50-53 | the result is the bit of the abstract bit sequence at that index |
| Bitmaps.Bitmap.SetBit | LukeyOS/start/source/kernel/tools/bitmap.c:36-45 | exactly the bits of the range change, those past the end are ignored |
| Bitmaps.Bitmap.AllocBits | LukeyOS/start/source/kernel/tools/bitmap.c:65-98 | finds the first accepted position or proves that there is none, and sets exactly that range |
| Bitmaps.SearchIsSoundExactlyForOnePage | LukeyOS/start/source/kernel/tools/bitmap.c:82-88 | every range the search accepts is free if and only if one page is asked for |
| Bitmaps.BitsAfterWrite | LukeyOS/start/source/kernel/tools/bitmap.c:40-43 | a masked write to one byte changes one bit of the sequence |
| PageAllocators.PageAllocator.AllocPage | LukeyOS/start/source/kernel/core/memory.c:50-65 | a page address that was free and is marked now; 0 exactly when no page is free |
| PageAllocators.PageAllocator.FreePages | LukeyOS/start/source/kernel/core/memory.c:74-82 | exactly the pages of the run lose their marks; none for an address below the managed memory, whose index wraps around |
| PageAllocators.UsedDeterminesBitmap | LukeyOS/start/source/kernel/core/memory.c:74-82 | equal sets of used pages mean equal bitmaps, bit for bit |
| MemoryManagers.MemoryManager.constructor | LukeyOS/start/source/kernel/core/memory.c:493-526 | boot leaves a valid state: no page has an owner, every bit is zero, every page and the kernel directory are empty, and the kernel directory is active |
| KernelTables.CreateKernelTable | LukeyOS/start/source/kernel/core/memory.c:201-234 | from the state of boot: every page of the kernel directory has the entry that the regions give it, if and only if the free pages suffice for the tables they share; valid either way, and only kernel tables are owned |
| KernelTables.MapRegion | LukeyOS/start/source/kernel/core/memory.c:221-233 | one region more: its pages are mapped, the others as before; success if and only if its missing tables can be had |
| KernelTables.TablesNeededCounts | LukeyOS/start/source/kernel/core/memory.c:221-233 | the tables that a region needs beyond those of the regions before it are the ones counted while it is mapped |
| KernelTables.PagesOfRegion | LukeyOS/start/source/kernel/core/memory.c:225-230 | a region takes the pages from that of its first address up to its end |
| KernelTables.KernelAddress | LukeyOS/start/source/kernel/core/memory.c:201-234 | each address of a region leads to the place as far from the region's physical start as it is from its first page, with the rights its flags name |
| KernelTables.KernelElsewhere | LukeyOS/start/source/kernel/core/memory.c:201-234 | a page that no region reaches has an empty entry |
| MemoryManagers.MemoryManager.AllocPage | LukeyOS/start/source/kernel/core/memory.c:50-65 | keeps tables and owners consistent; the new page had no owner |
| MemoryManagers.MemoryManager.FindPte | LukeyOS/start/source/kernel/core/memory.c:122-160 | the entry of the page, in the table there was or in a fresh zeroed one; a directory entry that is made names that table with the flags P, W and U; all translations stay the same |
| MemoryManagers.MemoryManager.MapPage | LukeyOS/start/source/kernel/core/memory.c:177-191 | one page: only its translation changes; fails exactly when its table is missing and no page is free |
| MemoryManagers.MemoryManager.MapNext | LukeyOS/start/source/kernel/core/memory.c:175-193 | one more page of a range keeps the statement about the range |
| MemoryManagers.MemoryManager.CreateMap | LukeyOS/start/source/kernel/core/memory.c:171-196 | page v+k translates to p+k with the flags asked for, for all k below n, and no other translation of any directory changes, across table boundaries; success if and only if the free pages suffice for the missing tables |
| PageTables.WriteEntry | LukeyOS/start/source/kernel/core/memory.c:122-196 | writing one entry of a found or fresh table is mapping that page and nothing else |
| PageTables.MapStep | LukeyOS/start/source/kernel/core/memory.c:175-193 | mapping k pages and one more is mapping k+1 pages |
| PageTables.NewTable | LukeyOS/start/source/kernel/core/memory.c:141-155 | hanging a zeroed page below an absent directory entry keeps every page to one use |
| PageTables.OnlyTablesMatter | LukeyOS/start/source/kernel/core/memory.c:122-160 | writes to pages that hold no table change no translation |
| PageTables.MakeEntry | LukeyOS/start/source/kernel/core/memory.c:189-189 | the page address, the flags asked for and the present bit, and no other bit |
| PageTables.PermKept | LukeyOS/start/source/kernel/include/cpu/mmu.h:106-109 | an entry made with the flags read from another has its low nine bits |
| Rights.RightsOfEntry | LukeyOS/start/source/kernel/core/memory.c:141-155 | the directory entries take no right away: whether a program may read or write a page, which both levels decide, is decided by the entry of that page |
| Rights.MappedRights | LukeyOS/start/source/kernel/core/memory.c:171-196 | a mapped page may be read and written by programs exactly as its flags say |
| MemoryManagers.MemoryManager.CreateUvm | LukeyOS/start/source/kernel/core/memory.c:239-257 | the kernel half is shared, the user half is empty, no page in use changes; 0 exactly when no page is free |
| AddressSpaces.NewDirectory | LukeyOS/start/source/kernel/core/memory.c:239-257 | a fresh directory with the kernel's entries keeps the invariant and every translation |
| MemoryManagers.MemoryManager.GivePage | LukeyOS/start/source/kernel/core/memory.c:276-292 | a fresh page at one address, or nothing, or one page lost when its table cannot be had |
| MemoryManagers.MemoryManager.GiveRange | LukeyOS/start/source/kernel/core/memory.c:275-294 | the page loop of an allocation: how far it came, why it stopped, what it left |
| MemoryManagers.MemoryManager.FreeByUserAddress | LukeyOS/start/source/kernel/core/memory.c:284-290 | freeing by a user address frees nothing: it lies past the bitmap |
| MemoryManagers.MemoryManager.AllocForPageDir | LukeyOS/start/source/kernel/core/memory.c:266-296 | a first part of the range is mapped to fresh pages and nothing else changes; how many, in terms of the free pages; 0 also when pages run out |
| UserPages.AllocationOutcome | LukeyOS/start/source/kernel/core/memory.c:277-295 | the whole range is mapped if and only if the free pages suffice; -1 if and only if the last free page went to a page without a table |
| UserPages.GivenStep | LukeyOS/start/source/kernel/core/memory.c:275-294 | giving k fresh pages and one more is giving k+1 |
| Rights.GivenRights | LukeyOS/start/source/kernel/core/memory.c:266-296 | a page given with the flags 7 may be read and written by the program |
| Machine.PageCountIsLeast | LukeyOS/start/source/kernel/core/memory.c:269-269 | the least number of pages that hold the bytes, if and only if rounding up does not overflow |
| UserPages.HandOver | LukeyOS/start/source/kernel/core/memory.c:276-292 | a page taken by the kernel and mapped becomes the directory's own, the invariant holds again |
| MemoryManagers.MemoryManager.DestroyUvm | LukeyOS/start/source/kernel/core/memory.c:342-374 | the directory's pages, and only they, are given back; every other address space stays valid |
| AddressSpaces.DestroyedInv | LukeyOS/start/source/kernel/core/memory.c:342-374 | without the pages of one directory the invariant holds for all others |
| AddressSpaces.ReleasedAll | LukeyOS/start/source/kernel/core/memory.c:348-372 | the two loops release every user page and every table of the directory exactly once |
| MemoryManagers.MemoryManager.CopyUvm | LukeyOS/start/source/kernel/core/memory.c:379-436 | a copy of the user half, each entry with the low nine bits of the parent's and the same page contents, if and only if the free pages are at least one more than the parent's pages and the tables for them; otherwise -1, everything taken is given back but for at most one page, lost if and only if the last free page went to a page whose table was missing |
| AddressSpaces.OnePageCounted | LukeyOS/start/source/kernel/core/memory.c:405-424 | a page copied takes a page, and a table when it is the first one there: the count up to the next page |
| AddressSpaces.CopyOutcome | LukeyOS/start/source/kernel/core/memory.c:379-435 | a copy that stopped had too few free pages, and it lost a page if and only if the first page that could not be had both itself and its table found one page left |
| MemoryManagers.MemoryManager.CopyPresent | LukeyOS/start/source/kernel/core/memory.c:405-428 | one page copied with the low nine bits of its entry and its contents, the parent as before |
| AddressSpaces.CopyOnePage | LukeyOS/start/source/kernel/core/memory.c:410-428 | giving a page and filling it extends the copy by that page |
| AddressSpaces.CopyComplete | LukeyOS/start/source/kernel/core/memory.c:379-428 | a copy up to the last page maps the same pages, with the low nine bits of their entries and their contents, each to a page free before |
| AddressSpaces.ParentUnchanged | LukeyOS/start/source/kernel/core/memory.c:379-428 | the parent keeps its translations and its bytes, and distinct pages have distinct copies |
| Rights.CopyRights | LukeyOS/start/source/kernel/core/memory.c:379-428 | the child may read and write exactly the pages that its parent may |
| AddressSpaces.AllGivenBack | LukeyOS/start/source/kernel/core/memory.c:430-435 | destroying a half-made copy leaves exactly the old owners |
| MemoryManagers.MemoryManager.Translate | LukeyOS/start/source/kernel/core/memory.c:122-160 | the entry that the two-level walk finds for a page |
| MemoryManagers.MemoryManager.FreeKernelPage | LukeyOS/start/source/kernel/core/memory.c:318-325 | a kernel page loses its owner, nothing else |
| MemoryRuns.OneUsePerPage | LukeyOS/start/source/kernel/core/memory.c:50-82 | in every valid state a page has one use: no two address spaces share a user page, and directories, tables, user and kernel pages never overlap |
| MemoryRuns.EveryPageUsed | LukeyOS/start/source/kernel/core/memory.c:50-82 | conversely every marked page has such a use, is a kernel table, or was lost |
| MemoryRuns.Perform | LukeyOS/start/source/kernel/core/memory.c:239-585 | one operation does what it is for: which directories and kernel pages there are then, what was mapped, copied or given back, in terms of the free pages |
| MemoryRuns.AnyRun | LukeyOS/start/source/kernel/core/memory.c:239-585 | after any sequence of create, allocate, copy, destroy, sbrk, take, give back and switch each used page has one use and its bit set; the trace of states shows what each operation did |
| MemoryRuns.BootAndRun | LukeyOS/start/source/kernel/core/memory.c:201-585 | the same from boot on: the state of boot, the kernel's tables, then any operations |
| MemoryRuns.CreateFillDestroy | LukeyOS/start/source/kernel/core/memory.c:239-374 | create, any allocations, destroy: the bitmap is the old one bit for bit unless an allocation reported failure, and no page in use changed |
| Heaps.SysSbrk | LukeyOS/start/source/kernel/core/memory.c:533-585 | for any heap end and increment: returns the old end, maps only fresh pages from there on, as many as the free pages allow, which the program may read and write; a heap mapped throughout stays so if and only if the pages suffice or the very first one fails |
| Heaps.HeapAfter | LukeyOS/start/source/kernel/core/memory.c:566-584 | after an allocation that stopped, the mapped pages are those below the new end if and only if that condition holds |
| Heaps.HeapUsable | LukeyOS/start/source/kernel/core/memory.c:574-574 | every page that the heap was given may be read and written by the program |
| CopyData.GetPaddr | LukeyOS/start/source/kernel/core/memory.c:441-450 | the physical address by the two-level walk, 0 when there is no table; a table without the page gives the offset in physical page 0 |
| CopyData.CopyUvmData | LukeyOS/start/source/kernel/core/memory.c:456-485 | the chunked copy equals a byte-by-byte translated copy and changes nothing else; it stops exactly at the first page that is not mapped, except that a first chunk whose page is missing below a table lands in physical page 0 and disturbs nothing else |
| CopyData.CopyBytes | LukeyOS/start/source/kernel/core/memory.c:477-477 | kernel_memcpy: the bytes of one physical page from an offset on become the bytes read at the source, and no other byte changes |
| CopyData.RoundDone | LukeyOS/start/source/kernel/core/memory.c:459-482 | one round more: its chunk extends the copy, or is the one that went astray |
| CopyData.MovePage | LukeyOS/start/source/kernel/core/memory.c:458-482 | one chunk, to the end of the page or of the copy: to the page mapped there, to physical page 0, or nothing when the physical address is 0 |
| Bytes.StoredIsPatch | LukeyOS/start/source/kernel/core/memory.c:477-477 | bytes stored in one user page change exactly those user addresses |
| Bytes.PatchTwice | LukeyOS/start/source/kernel/core/memory.c:459-482 | a copy continued where it ended is one copy |
| CopyArgs.CopyArgs | LukeyOS/start/source/kernel/core/task.c:697-728 | read through the new directory, argc, argv and every terminated string are those of the caller; the new program reads what it read everywhere else, and no other page changes |
| CopyArgs.CopyArgument | LukeyOS/start/source/kernel/core/task.c:711-725 | one string and its table entry are in place, those before stay |
| CopyArgs.StrLen | LukeyOS/start/source/kernel/core/task.c:715-715 | the number of bytes before the terminator |
| CopyArgs.HeaderLast | LukeyOS/start/source/kernel/core/task.c:700-727 | the header written last completes the layout |
| RbTrees.RbTree.RotateLeft | LukeyOS/newlib/i686-elf/include/sys/tree.h:360-370 | the subtree turns, all links above, below and between agree with the turned tree, the order of nodes stays |
| RbTrees.RbTree.RotateRight | LukeyOS/newlib/i686-elf/include/sys/tree.h:372-382 | the mirror image |
| RbTrees.RbTree.SwapChild | LukeyOS/newlib/i686-elf/include/sys/tree.h:351-358 | exactly the link from above, or the root, leads to the other node |
| RbTrees.RbTree.SetColor | LukeyOS/newlib/i686-elf/include/sys/tree.h:338-341 | one node changes colour, the tree is otherwise the same |
| RbLinks.RotatedLeft | LukeyOS/newlib/i686-elf/include/sys/tree.h:360-370 | the six writes of a rotation hold the turned tree at the same place |
| RbLinks.Replaced | LukeyOS/newlib/i686-elf/include/sys/tree.h:351-358 | replacing a subtree and the one link to it replaces it in the whole tree |
| RbTrees.RbTree.LiftRed | LukeyOS/newlib/i686-elf/include/sys/tree.h:450-455 | a red uncle: the violation moves two levels up, the black height grows |
| RedBlackTrees.LiftedBelow | LukeyOS/newlib/i686-elf/include/sys/tree.h:450-455 | recolouring both generations leaves at most a red node below a red one, higher up |
| RbTrees.RbTree.RepairRed | LukeyOS/newlib/i686-elf/include/sys/tree.h:446-480 | one round of the insertion repair: the violation rises or is gone |
| RbTrees.RbTree.InsertColor | LukeyOS/newlib/i686-elf/include/sys/tree.h:442-483 | the repair terminates in a red-black tree with the same nodes in order, after no more rounds than there are nodes above the new one |
| RbTrees.RbTree.Insert | LukeyOS/newlib/i686-elf/include/sys/tree.h:593-626 | a valid tree again; an equal node is returned and nothing changes, else exactly the new node is added in order; search and repair take at most twice the height |
| RbTrees.RbTree.RepairLackLeft | LukeyOS/newlib/i686-elf/include/sys/tree.h:492-516 | one round of the removal repair for a left child |
| RbTrees.RbTree.RepairLackRight | LukeyOS/newlib/i686-elf/include/sys/tree.h:517-542 | the same for a right child, with its extra test |
| RedBlackTrees.Lent | LukeyOS/newlib/i686-elf/include/sys/tree.h:511-515 | a sibling with a red far child gives one black node away and the tree is red-black |
| RedBlackTrees.SiblingPainted | LukeyOS/newlib/i686-elf/include/sys/tree.h:506-510 | a sibling without red children turns red, and the lack moves to the parent |
| RedBlackTrees.RedSiblingTurned | LukeyOS/newlib/i686-elf/include/sys/tree.h:494-498 | a red sibling turned with the parent leaves a black one |
| RbTrees.RbTree.RemoveColor | LukeyOS/newlib/i686-elf/include/sys/tree.h:486-545 | the repair terminates in a red-black tree with the same nodes in order, after no more rounds than there are nodes above the empty position |
| RbTrees.RbTree.CutOuter | LukeyOS/newlib/i686-elf/include/sys/tree.h:556-559 | a node with at most one child gives its place to that child |
| RbTrees.RbTree.CutInner | LukeyOS/newlib/i686-elf/include/sys/tree.h:560-578 | the next node in order takes the place, the links and the colour of the one removed |
| RbLinks.Succeeded | LukeyOS/newlib/i686-elf/include/sys/tree.h:561-579 | these writes hold the path on which the next node stands in for the one removed |
| RbTrees.RbTree.Settle | LukeyOS/newlib/i686-elf/include/sys/tree.h:580-585 | the child gets its parent and turns black, or the missing black node is made up for |
| RbTrees.RbTree.Remove | LukeyOS/newlib/i686-elf/include/sys/tree.h:547-591 | a valid tree again whose sequence is the old one without that node; the node itself is returned; search for the successor and repair take at most twice the height |
| RbSearch.Find | LukeyOS/newlib/i686-elf/include/sys/tree.h:628-645 | a node with the key if there is one, else 0; in at most as many steps as the tree is high |
| RbSearch.NFind | LukeyOS/newlib/i686-elf/include/sys/tree.h:647-667 | the first node in order whose key is not below the one searched for; in at most as many steps as the tree is high |
| RbSearch.Next | LukeyOS/newlib/i686-elf/include/sys/tree.h:669-690 | the node that follows in order, 0 after the last; in at most as many steps as the tree is high |
| RbSearch.Prev | LukeyOS/newlib/i686-elf/include/sys/tree.h:692-713 | the node that precedes in order, 0 before the first; in at most as many steps as the tree is high |
| RbSearch.MinMax | LukeyOS/newlib/i686-elf/include/sys/tree.h:715-729 | the first or the last node, 0 for an empty tree; in at most as many steps as the tree is high |
| RbSearch.ForEach | LukeyOS/newlib/i686-elf/include/sys/tree.h:760-763 | the iteration visits every node once, in order |
| RbSearch.Reinsert | LukeyOS/newlib/i686-elf/include/sys/tree.h:731-745 | after one key changed the tree is in order again, without the node if another has its key |
| RedBlackTrees.HeightBound | LukeyOS/newlib/i686-elf/include/sys/tree.h:60-61 | two to the height is at most the square of the number of nodes plus one, so steps bounded by the height are logarithmic |
| BinaryTrees.HeightAt | LukeyOS/newlib/i686-elf/include/sys/tree.h:60-61 | no position lies deeper than the tree is high, so neither a descent nor a climb takes more steps |
| RedBlackTrees.Filled | LukeyOS/newlib/i686-elf/include/sys/tree.h:53-58 | a position that awaits a subtree and a subtree that fits make a red-black tree |
| RedBlackTrees.Opened | LukeyOS/newlib/i686-elf/include/sys/tree.h:53-58 | conversely every position of a red-black tree awaits exactly what stands there |
| BinaryTrees.InOrderAt | LukeyOS/newlib/i686-elf/include/sys/tree.h:320-325 | the order of a tree is what lies before a position, the subtree there, and what lies after |
| SplayTrees.SplayTree.RotateRight | LukeyOS/newlib/i686-elf/include/sys/tree.h:88-92 | the middle tree turns; both partial trees and all other nodes stay |
| SplayTrees.SplayTree.RotateLeft | LukeyOS/newlib/i686-elf/include/sys/tree.h:94-98 | the mirror image |
| SplayTrees.SplayTree.LinkLeft | LukeyOS/newlib/i686-elf/include/sys/tree.h:100-104 | the root and its right subtree join the larger nodes |
| SplayTrees.SplayTree.LinkRight | LukeyOS/newlib/i686-elf/include/sys/tree.h:106-110 | the root and its left subtree join the smaller nodes |
| SplayTrees.SplayTree.Assemble | LukeyOS/newlib/i686-elf/include/sys/tree.h:112-117 | the three parts become one tree with the same nodes in order |
| SplayTrees.SplayTree.Splay | LukeyOS/newlib/i686-elf/include/sys/tree.h:209-242 | terminates, keeps the nodes in order and every other node as it was; the root has the key, or is its successor or predecessor; the tree and the number of rounds are those of the recursive splay |
| SplayTrees.SplayTree.Find | LukeyOS/newlib/i686-elf/include/sys/tree.h:128-137 | the node with the key at the root, 0 exactly when there is none; its rounds are paid for by the potential but for six times the logarithm of the size, and two |
| SplayTrees.SplayTree.Insert | LukeyOS/newlib/i686-elf/include/sys/tree.h:164-186 | a node with the key is returned, else exactly the new node is added and is the root; at the amortized cost of two splays |
| SplayTrees.SplayTree.Remove | LukeyOS/newlib/i686-elf/include/sys/tree.h:188-207 | exactly the node with the key leaves; the result is the argument, 0 when there is none; at the amortized cost of two splays |
| SplayTrees.SplayTree.Next | LukeyOS/newlib/i686-elf/include/sys/tree.h:139-151 | the node that follows in order; after the splay the walk takes as many steps as the right subtree is deep on its left |
| SplayTrees.SplayTree.SplayMinMax | LukeyOS/newlib/i686-elf/include/sys/tree.h:247-278 | terminates for either direction with the first or the last node at the root, in the rounds of the recursive splay |
| SplayTrees.SplayTree.OuterRound | LukeyOS/newlib/i686-elf/include/sys/tree.h:255-276 | one round in a direction; without one it changes nothing and is not the last, so the loop ends if and only if there is a direction |
| SplayTrees.SplayTree.MinMax | LukeyOS/newlib/i686-elf/include/sys/tree.h:153-158 | the first or the last node, 0 for an empty tree; at the amortized cost of one splay |
| SplayCosts.AccessCost | LukeyOS/newlib/i686-elf/include/sys/tree.h:209-242 | the links of a splay and twice the potential of the subtrees of its root are at most twice the potential before and four times the logarithm of the size, and one; none more when the far side of the root is small |
| SplayCosts.SplayCost | LukeyOS/newlib/i686-elf/include/sys/tree.h:209-242 | the rounds of any splay, by key or by direction, are paid for by the potential but for six times the logarithm of the size, and two |
| SplayCosts.RootCost | LukeyOS/newlib/i686-elf/include/sys/tree.h:171-183 | a node inserted at the root adds at most its own logarithm to the potential |
| SplayCosts.JoinCost | LukeyOS/newlib/i686-elf/include/sys/tree.h:196-204 | a removal that joins the splayed left subtree and the right one costs one splay |
| SplayRuns.AnySequence | LukeyOS/newlib/i686-elf/include/sys/tree.h:49-51 | any sequence of searches, insertions, removals and minima or maxima: beyond twice the potential at the start each takes at most 12 times the logarithm of the size that can be reached, and four, rounds |
| SplayRuns.FromEmpty | LukeyOS/newlib/i686-elf/include/sys/tree.h:49-51 | on an empty tree m operations of which n insert take at most m * (12 lg n + 4) rounds |
| SplayRuns.ForEach | LukeyOS/newlib/i686-elf/include/sys/tree.h:292-295 | the iteration visits every node once, in order |
| SplayRuns.NextWalksAgain | LukeyOS/newlib/i686-elf/include/sys/tree.h:139-151 | for every n: after n insertions and one search, each call of SPLAY_NEXT for the same node walks n/2 nodes, so it has no logarithmic amortized cost |
| SplayRuns.ChainHalved | LukeyOS/newlib/i686-elf/include/sys/tree.h:209-242 | a splay for the lowest node of a chain halves the chain |
| SplayLinks.AssembledHeld | LukeyOS/newlib/i686-elf/include/sys/tree.h:112-117 | the four writes hold the assembled tree and touch no other node |
| SplayTrees.SplayTree.LargestAtRoot | LukeyOS/newlib/i686-elf/include/sys/tree.h:200-203 | splaying for a key above all others leaves a root without a right child |
| Lists.ListStore.InsertFirst | LukeyOS/start/source/kernel/tools/list.c:22-39 | the task comes first; every list stays well linked with its count |
| Lists.ListStore.InsertLast | LukeyOS/start/source/kernel/tools/list.c:47-64 | the task comes last; every list stays well linked with its count |
| Lists.ListStore.RemoveFirst | LukeyOS/start/source/kernel/tools/list.c:70-95 | the first task leaves and is returned, null for an empty list |
| Lists.ListStore.Remove | LukeyOS/start/source/kernel/tools/list.c:101-126 | the task leaves, its neighbours link to each other, the rest stays in order |
| Lists.Unhooked | LukeyOS/start/source/kernel/tools/list.c:101-126 | the writes of a removal hold the chain without that task and touch no other list's nodes |
| Lists.OtherLists | LukeyOS/start/source/kernel/tools/list.c:22-126 | an operation on one list leaves all others well linked |
| Scheduling.StepKeepsInv | LukeyOS/start/source/kernel/core/task.c:246-367 | every step keeps: each task in at most one list, idle in none, waiters only for held locks and exhausted semaphores, and the ready head (or idle) running |
| Scheduling.DispatchedInv | LukeyOS/start/source/kernel/core/task.c:277-303 | after a dispatch the running task is the ready head, or idle |
| Scheduling.SleepersCountedCore | LukeyOS/start/source/kernel/core/task.c:327-338 | counting all sleepers and waking those at zero keeps the lists apart and the counters positive |
| Scheduling.HandedOverCore | LukeyOS/start/source/kernel/ipc/mutex.c:57-68 | handing a lock to the first waiter keeps every lock's rules |
| Scheduling.WokeCore | LukeyOS/start/source/kernel/ipc/sem.c:50-56 | handing a permit to the first waiter keeps every semaphore's rules |
| StepEffects.StepMoves | LukeyOS/start/source/kernel/core/task.c:246-367 | for every step, read off the state before it: every list, in order, with exactly those that leave and those that join it; the state, slice, sleep and parent of every task; every lock and semaphore; and who runs then |
| StepEffects.NextIsMoved | LukeyOS/start/source/kernel/core/task.c:246-367 | this determines the step: a state is the next one if and only if all of it holds |
| StepEffects.SplitByDue | LukeyOS/start/source/kernel/core/task.c:327-338 | the sleepers whose count is one wake, the others stay, both in the order of the list |
| StepEffects.ParentsJoin | LukeyOS/start/source/kernel/core/task.c:937-947 | the first task if it waits and got a child that has exited, then the parent if it waits, come to the end of the ready list |
| SchedulerRuns.BootInv | LukeyOS/start/source/kernel/core/task.c:158-243 | the state after boot obeys the rules |
| SchedulerRuns.RunKeepsInv | LukeyOS/start/source/kernel/core/task.c:246-367 | so does every state of every run |
| SchedulerRuns.OnePlaceEach | LukeyOS/start/source/kernel/core/task.c:246-266 | in every reachable state a task is at one position of one list at most, and idle at none |
| SchedulerRuns.StepBringsNearer | LukeyOS/start/source/kernel/core/task.c:307-322 | whatever a step does, a waiting task never has more ticks to wait, and a tick takes one away |
| SchedulerRuns.BoundedWaiting | LukeyOS/start/source/kernel/core/task.c:130-132 | a ready task with k tasks ahead has run once 100 k ticks have passed |
| SchedulerRuns.JoinedRuns | LukeyOS/start/source/kernel/core/task.c:246-367 | whoever comes to the ready list, by whatever step, runs after full slices for those ahead |
| SchedulerRuns.GrantedRuns | LukeyOS/start/source/kernel/ipc/sem.c:45-63 | a notification with waiters: the first one leaves the queue, is last in the ready list and ready (or running when idle ran), the count stays zero, and it has run once 100 ticks for each ready task have passed |
| SchedulerRuns.HandedRuns | LukeyOS/start/source/kernel/ipc/mutex.c:57-68 | the last unlock with waiters: the first one owns the lock once, leaves the queue, is last in the ready list and ready, and has run once 100 ticks for each ready task have passed |
| SchedulerHistories.SleepTicks | LukeyOS/start/source/kernel/core/task.c:370-381 | the tick count is the time rounded up; it is zero exactly when the rounding overflows 32 bits |
| SchedulerHistories.SleepsOn | LukeyOS/start/source/kernel/core/task.c:325-340 | a sleeper's counter is its first value less the ticks since, above zero while it sleeps |
| SchedulerHistories.WakesOnTime | LukeyOS/start/source/kernel/core/task.c:325-387 | a sleeper is in the ready list after exactly its number of ticks and not before, under any interleaving |
| SchedulerHistories.SleepsForever | LukeyOS/start/source/kernel/core/task.c:350-353 | after a sleep whose tick count overflows the task is in no list and does not run, in every later state |
| SchedulerHistories.StepPlaces | LukeyOS/start/source/kernel/core/task.c:246-266 | after a step a task is in no list if and only if it was in none and does not join the ready list, or it just awaited a child, exited or overslept |
| SchedulerHistories.NobodyDropped | LukeyOS/start/source/kernel/core/task.c:246-266 | over every run, a task that hung in a list hangs in one, unless it awaited a child, exited or overslept |
| SchedulerHistories.LostExactly | LukeyOS/start/source/kernel/core/task.c:350-387 | over every run, a task that is neither new, waiting nor a zombie is in no list if and only if it was so at the start or asked for a sleep that overflows |
| SchedulerHistories.WhoHangs | LukeyOS/start/source/kernel/core/task.c:158-387 | from boot on, a task is in no list if and only if it is new, awaits a child, has exited or overslept |
| SchedulerHistories.StepLeaves | LukeyOS/start/source/kernel/core/task.c:246-367 | what each step leaves alone: lists, locks, semaphores and sleepers it does not name |
| SchedulerHistories.MutexHistory | LukeyOS/start/source/kernel/ipc/mutex.c:23-74 | over every run locks less unlocks of a task are the count of its lock, or one while it is queued |
| SchedulerHistories.LocksMatched | LukeyOS/start/source/kernel/ipc/mutex.c:23-74 | from boot on the owner's count is its unmatched locks, and arrivals are hand-offs followed by the queue |
| SchedulerHistories.MutexFifo | LukeyOS/start/source/kernel/ipc/mutex.c:37-68 | contended waiters get the lock in the order in which they came |
| SchedulerHistories.SemConservation | LukeyOS/start/source/kernel/ipc/sem.c:12-63 | first count and notifications are the count and all grants; a positive count means no waiters |
| SchedulerHistories.SemFifo | LukeyOS/start/source/kernel/ipc/sem.c:29-56 | queued waiters are granted in the order in which they came |
| Kernels.Kernel.constructor | LukeyOS/start/source/kernel/core/task.c:158-243 | boot makes the first state of the machine |
| Kernels.Kernel.SetReady | LukeyOS/start/source/kernel/core/task.c:246-255 | the task is last in the ready list and ready; idle never |
| Kernels.Kernel.SetBlock | LukeyOS/start/source/kernel/core/task.c:258-266 | the running task leaves the head of the ready list; idle never |
| Kernels.Kernel.Dispatch | LukeyOS/start/source/kernel/core/task.c:291-303 | the head of the ready list, or idle, runs |
| Kernels.Kernel.TimeTick | LukeyOS/start/source/kernel/core/task.c:307-342 | is the tick of the state machine: the slice, the turn of the next ready task when it is used up, all sleepers in list order, dispatch (`StepEffects.StepMoves` says what that does to every list and task) |
| Kernels.Kernel.CountSleepers | LukeyOS/start/source/kernel/core/task.c:327-338 | the scan that removes from the list it walks counts every sleeper once and wakes those at zero in order |
| Kernels.Kernel.SetSleep | LukeyOS/start/source/kernel/core/task.c:350-357 | the task sleeps for that many ticks, none for zero |
| Kernels.Kernel.Msleep | LukeyOS/start/source/kernel/core/task.c:370-387 | is the sleep step of the state machine |
| Kernels.Kernel.Yield | LukeyOS/start/source/kernel/core/task.c:804-821 | the running task goes to the end when another is ready |
| Kernels.Kernel.AwaitChild | LukeyOS/start/source/kernel/core/task.c:893-898 | the running task waits for a child in no list |
| Kernels.Kernel.Adopt | LukeyOS/start/source/kernel/core/task.c:920-925 | is the adoption step: one child of the running task gets the first task as its parent |
| Kernels.Kernel.AdoptChildren | LukeyOS/start/source/kernel/core/task.c:916-932 | the scan of the task table adopts exactly the children, and says whether one of them is a zombie |
| Kernels.Kernel.SysExit | LukeyOS/start/source/kernel/core/task.c:905-957 | adoption of all children, then the exit: no task of the table keeps the task that is gone as its parent, no other parent changes; a parent that waits is ready, and so is the first task if it waits and got a child that has exited |
| Kernels.ExitWakesWaiting | LukeyOS/start/source/kernel/core/task.c:935-947 | a parent that waits is in the ready list after the exit, and the first task when it waits and got a zombie |
| Families.ExitWakesParent | LukeyOS/start/source/kernel/core/task.c:941-947 | a parent that waits is ready or runs after the exit, and has run once 100 ticks for each ready task have passed |
| Families.WaitsForExit | LukeyOS/start/source/kernel/core/task.c:893-898 | over every run, a task that awaits a child goes on waiting until an exit wakes it |
| Families.ExitNoticed | LukeyOS/start/source/kernel/core/task.c:876-947 | a parent that began to wait before its child exited is woken when it exits, over every run |
| Families.ExitMissed | LukeyOS/start/source/kernel/core/task.c:890-898 | a run in which the child exits between the search and the wait: in every later state the parent waits and the child is a zombie |
| Families.StartedIsReady | LukeyOS/start/source/kernel/core/task.c:105-137 | a started task is last in the ready list, with a full slice, and a child of the running task |
| Families.ReapedIsFree | LukeyOS/start/source/kernel/core/task.c:876-889 | the slot of a child that was reaped can be started again |
| Families.AwaitsInWaiting | LukeyOS/start/source/kernel/core/task.c:893-898 | a task that awaits a child is in no list, in the state that an exit looks for, and another one runs |
| Kernels.Kernel.Exit | LukeyOS/start/source/kernel/core/task.c:935-957 | wakes the waiting parents, leaves the task a zombie in no list |
| Kernels.Kernel.Reap | LukeyOS/start/source/kernel/core/task.c:876-889 | a zombie's slot is cleared |
| Kernels.Kernel.Start | LukeyOS/start/source/kernel/core/task.c:105-153 | a new task is last in the ready list with a full slice |
| Kernels.Kernel.MutexLock | LukeyOS/start/source/kernel/ipc/mutex.c:23-43 | is the lock step: free, recursive or queued |
| Kernels.Kernel.MutexUnlock | LukeyOS/start/source/kernel/ipc/mutex.c:48-74 | is the unlock step: by the owner only, with hand-off to the first waiter, who is ready then (`SchedulerRuns.HandedRuns`) |
| Kernels.Kernel.SemWait | LukeyOS/start/source/kernel/ipc/sem.c:22-39 | is the wait step: a permit or the end of the queue |
| Kernels.Kernel.SemNotify | LukeyOS/start/source/kernel/ipc/sem.c:45-63 | is the notify step: a permit to the count, or to the first waiter, who is ready then (`SchedulerRuns.GrantedRuns`) |
| Kernels.Kernel.Perform | LukeyOS/start/source/kernel/core/task.c:246-367 | any sequence of calls is the run of the state machine with those steps, so all theorems about runs hold of the linked lists |
| Ttys.Fifo.Get | LukeyOS/start/source/kernel/dev/tty.c:38-55 | the oldest byte leaves the ring, or the ring is empty |
| Ttys.Fifo.Put | LukeyOS/start/source/kernel/dev/tty.c:60-77 | the byte is the newest of the ring, or the ring is full |
| Ttys.Tty.constructor | LukeyOS/start/source/kernel/dev/tty.c:96-118 | an empty ring and no permit |
| Ttys.Tty.In | LukeyOS/start/source/kernel/dev/tty.c:238-250 | is the key press: ignored at 512 permits, otherwise announced even when the ring has no room (`Ttys.PressTakesEffect` says what that does) |
| Ttys.Tty.ReadWait | LukeyOS/start/source/kernel/dev/tty.c:135-138 | is the wait of a reader |
| Ttys.Tty.ReadGet | LukeyOS/start/source/kernel/dev/tty.c:139-141 | the reader uses its permit: the oldest byte, or none |
| Ttys.KeyPressBalanced | LukeyOS/start/source/kernel/dev/tty.c:238-250 | a key press keeps bytes, permits and drops in balance |
| Ttys.InputHistory | LukeyOS/start/source/kernel/dev/tty.c:27-77 | over every run bytes are read in accepted order, never more bytes than permits, and as many exactly when every dropped byte has been answered by an empty read |
| Ttys.PressTakesEffect | LukeyOS/start/source/kernel/dev/tty.c:238-250 | at 512 permits nothing changes; else the byte is the newest of the ring if there is room, and the first reader that waits has the permit, leaves the queue and is last in the ready list, or the count is one more |
| Ttys.WaitTakesEffect | LukeyOS/start/source/kernel/dev/tty.c:135-138 | a reader takes a permit and goes on, or is last in the queue and off the ready list |
| Ttys.InputExactly | LukeyOS/start/source/kernel/dev/tty.c:27-77 | over every session: accepted are exactly the bytes pressed at fewer than 512 permits and fewer than 512 bytes, delivered the oldest byte of each read that found one, and every key press was delivered, is held, found a full ring or found 512 permits |
| Ttys.SessionIsRun | LukeyOS/start/source/kernel/dev/tty.c:120-250 | a session is a run of the scheduler, so what holds over every run holds over it |
| Ttys.DropHappens | LukeyOS/start/source/kernel/dev/tty.c:238-250 | a run that drops a byte: the ring is full, a reader has its permit and not yet its byte, a key is pressed |
| Bintimes.Bintime.Addx | LukeyOS/newlib/i686-elf/include/sys/time.h:70-79 | exact on sec*2^64+frac, wrapped to 128 bits |
| Bintimes.Bintime.Add | LukeyOS/newlib/i686-elf/include/sys/time.h:81-91 | exact likewise; when a time is added to itself a carry counts twice |
| Bintimes.Bintime.Sub | LukeyOS/newlib/i686-elf/include/sys/time.h:93-103 | exact likewise |
| Bintimes.Bintime.Mul | LukeyOS/newlib/i686-elf/include/sys/time.h:105-115 | the two half products are the exact product, wrapped to 128 bits |
| Bintimes.Bintime.Shift | LukeyOS/newlib/i686-elf/include/sys/time.h:117-130 | to the left the exact product by a power of two, to the right its floor division |
| Bintimes.DisjointLeft | LukeyOS/newlib/i686-elf/include/sys/time.h:121-125 | the joined parts have no bit in common and do not overflow |
| Bintimes.DisjointRight | LukeyOS/newlib/i686-elf/include/sys/time.h:125-129 | the same to the right |
| Bintimes.SubUndoesAdd | LukeyOS/newlib/i686-elf/include/sys/time.h:81-103 | subtracting what was added gives the first time, overflow or not |
| FixedWidth.Signed128Exact | LukeyOS/newlib/i686-elf/include/sys/time.h:70-130 | an operation is exact if and only if the exact value fits |
| Bintimes.BintimeLosesOne | LukeyOS/newlib/i686-elf/include/sys/time.h:275-307 | through a bintime every nanosecond and microsecond count but zero comes back one smaller |
| Bintimes.FractionsRoundedDown | LukeyOS/newlib/i686-elf/include/sys/time.h:284-307 | the fraction of a timespec or timeval is never above it and less than one unit of 2^-64 seconds below for each nanosecond or microsecond |
| Bintimes.DecimalsRoundedDown | LukeyOS/newlib/i686-elf/include/sys/time.h:275-299 | the nanoseconds and microseconds of a fraction are never above it, and below it by less than one and what its lower half holds |
| Bintimes.Bintime.ToTimespec | LukeyOS/newlib/i686-elf/include/sys/time.h:275-282 | the nanoseconds of the fraction, below 10^9 |
| Bintimes.Bintime.ToTimeval | LukeyOS/newlib/i686-elf/include/sys/time.h:293-299 | the microseconds of the fraction, below 10^6 |
| Sbintimes.BinaryRoundTrips | LukeyOS/newlib/i686-elf/include/sys/time.h:146-170 | sbttobt and back is the identity; back and forth drops the low half of the fraction |
| Sbintimes.NsRoundTrip | LukeyOS/newlib/i686-elf/include/sys/time.h:191-217 | nanoseconds survive if and only if they are below two seconds or at least 2^32 |
| Sbintimes.UsRoundTrip | LukeyOS/newlib/i686-elf/include/sys/time.h:219-238 | microseconds survive if and only if they are below two seconds |
| Sbintimes.MsRoundTrip | LukeyOS/newlib/i686-elf/include/sys/time.h:240-259 | milliseconds survive if and only if they are below two seconds |
| Sbintimes.UnitsExact | LukeyOS/newlib/i686-elf/include/sys/time.h:204-259 | every 64-bit number of nanoseconds, microseconds or milliseconds is converted exactly (read back without overflow and rounded down it is the same) if and only if it is below two seconds or at least 2^32 with seconds below 2^31 |
| Sbintimes.NsExact | LukeyOS/newlib/i686-elf/include/sys/time.h:191-202 | the nanoseconds of a binary time are its value rounded down if and only if it is not negative |
| Sbintimes.UsMsExact | LukeyOS/newlib/i686-elf/include/sys/time.h:219-244 | microseconds and milliseconds are the value rounded down if and only if the product fits in 64 bits |
| Sbintimes.RoundedUp | LukeyOS/newlib/i686-elf/include/sys/time.h:172-190 | a conversion is never too short and at most one unit too long; smallest possible if and only if a remainder makes up for the rounded constant |
| Sbintimes.NotAlwaysSmallest | LukeyOS/newlib/i686-elf/include/sys/time.h:176-179 | 1953125 ns, for which the promised smallest number is missed |
| Sbintimes.TimespecRoundTrip | LukeyOS/newlib/i686-elf/include/sys/time.h:310-324 | timespec to sbintime and back is the identity for 32-bit seconds and nsec below 10^9 |
| Sbintimes.TimevalRoundTrip | LukeyOS/newlib/i686-elf/include/sys/time.h:327-342 | timeval to sbintime and back is the identity for 32-bit seconds and usec below 10^6 |
| Sbintimes.SpecsRoundedDown | LukeyOS/newlib/i686-elf/include/sys/time.h:310-335 | for every binary time, timespec and timeval are its value rounded down, with the decimal part below a second |
| Sbintimes.SpecsLast | LukeyOS/newlib/i686-elf/include/sys/time.h:320-342 | a timespec or timeval of 32-bit seconds becomes a binary time that lasts at least as long and less than one unit longer |

## Left out

- Hardware: port I/O, assembly, descriptor tables, task-state segments, interrupt controllers, keyboard codes, disk, boot and loader.
- Console output, echo and the line editing of tty_read; terminal output uses the same ring and semaphore as input.
- The mutex inside the page allocator and the one around the task table: allocation is one atomic step, and the scan of the task table in sys_wait is the parameter that says what it found.
- Accessed and dirty bits, which the processor sets in the entries.
- KernelTables.CreateKernelTable: the regions are any that do not overlap; their addresses come from the linker script.
- Directories are named by their page frame, list nodes and tree nodes by ids; addresses and pointer arithmetic of the C structures are not modelled.
- Multi-page allocation: every caller asks for one page.
- The user-range branch of memory_free_page, whose assertion contradicts its condition.
- MemoryManagers.MemoryManager.CreateMap: requires pages that are not mapped yet; the code stops the kernel otherwise.
- Heaps.SysSbrk: requires that the pages on the way are not mapped yet and that the sum does not wrap around 32 bits.
- CopyData.CopyUvmData: the source is mapped user pages of the running task or pages of the kernel.
- CopyArgs.CopyArgs: the pointer table lies in one page and the argument area is mapped, as exec arranges it.
- Page conservation over a whole fork or exec, and the test for -1 in sys_fork, which compares an unsigned number.
- The global list of all tasks, files and program loading; only their effect on the queues is modelled.
- A fork claims its slot and starts the task in one step; two forks that race for one slot are not modelled.
- Kernels.Kernel.Exit: requires a parent, since the code reads the parent's state without a test.
- Comparison functions of the trees are by an integer key; RB_AUGMENT is the default, which does nothing.
- SplayTrees.SplayTree.SplayMinMax: requires a direction; without one the code loops for ever, round by round as OuterRound says.
- The cost of a whole SPLAY_FOREACH, and the walk of SPLAY_NEXT inside a sequence of operations.
- Signed products that overflow in the decimal conversions, which C leaves undefined, wrap around in the model; the timespec and timeval macros for sums and differences are not modelled.
- Sbintimes.NsRoundTrip: from 2^31 seconds on the product overflows and is excluded; `Sbintimes.UnitsExact` covers those numbers.
