# The kernel's storage and scheduling layers

This project models seven parts of the kernel and proves what they keep, over every call and over
whole runs.  Each part has a pure description of its state and operations, which carries the theorems,
and a class with the source's own fields and loops, whose methods are proved to do what the pure
description says.

| part | modules | source |
|---|---|---|
| physical frames and page tables | `Bits`, `Frames`, `PageEntry`, `PageTables`, `Paging`, `PagingLimits` | `kernel/src/paging.c` |
| kernel heap | `HeapSegments`, `KernelHeap`, `HeapPages` | `kernel/src/memory.c` |
| FAT12 volume | `FatTable`, `FatChains`, `FatDisk`, `FatVolume` | `kernel/src/fat.c` |
| scheduler and ring buffer | `RingBuffer`, `SchedulerModel`, `Scheduler`, `ThreadFrames` | `kernel/src/scheduler.c`, `kernel/src/circular_buffer.c`, `kernel/src/thread.c` |
| file tree and paths | `CStrings`, `VfsTree`, `VfsInsert`, `VfsPrint`, `VfsSample`, `Vfs` | `kernel/src/vfs.c`, `kernel/src/string.c` |
| descriptor table | `SortedLists`, `FileTables` | `kernel/src/sorted_list.c`, `kernel/src/file_table.c` |
| table checksums | `Crc`, `CrcHeader` | `gnu-efi/lib/crc.c`, `kernel/src/typedef.c` |

`Counting` and `Wrappers` hold what the parts share.  `dafny verify dfyconfig.toml` checks everything.

## How the machine is modelled

* **Words.**  Addresses, counters and page-table entries are natural numbers below 2^64, with `&`, `|`
  and `<<` defined on their binary digits (`Bits`); wrap-around is written out where the code can wrap.
  CRC registers are bit vectors.
* **Memory for page tables.**  Physical memory is an array of frames, each seen as 512 entries.  The
  processor's walk (`PageTables.Walk`) follows sections 4.5 and 4.6 of volume 3A of the Intel manual, with the
  rights that all entries on the way grant together, and is independent of the kernel's masks; `PageEntry`
  relates the two.
* **The heap.**  Headers live in a map from addresses to records; the bytes of the blocks are a second
  map.  Whether a header write could touch a block is decided by address arithmetic on the two.
* **The disk.**  An array of 512-byte sectors, one of which `atapio_read_sectors` and
  `atapio_write_sectors` transfer at a time.
* **Strings.**  A `char*` is the memory from there on, a sequence of bytes with a terminator somewhere;
  reading past its end is an index error, so the proofs include that no string function runs past its
  strings.
* **Pointers to structures** (threads, file nodes) are natural numbers that index a map.  Where the
  source calls `kmalloc` for a structure, the address is a parameter that must be new.
* **Termination.**  `ghost` parameters such as the cluster list of a chain or the depth of a node say
  why a loop or recursion of the source ends; no computation depends on them.

## Where the code does something else than its names or comments say

* `PT_GET_ADR` masks with one hex digit less than `PT_SET_ADR` (paging.c:238, 241).  `PageEntry.ReadBackExact`
  gives the exact condition under which the two agree, and `PageEntry.GlobalBreaksReadBack` an input on
  which they do not.  Page tables never meet that input; this is part of `PageTables.Tree`.
* `unmap_mem` leaves the page present, translating to frame 0 (`PageEntry.UnmapStaysPresent`).
* A NULL from `REQUEST_PAGE` means exhaustion only because frame 0 is kept reserved
  (`Frames.NullMeansExhausted`, and `Frames.FrameZeroLooksLikeNull` for a memory in which it is not).
* `kmalloc` of less than a page recurses for ever when nothing fits (`HeapSegments.Stuck`,
  `HeapSegments.TryEnds`); 4040 bytes from a fresh one-page heap are such a request
  (`HeapSegments.StuckHeap`).  The error branch of `EXPAND_HEAP` cannot be reached.
* `write_fat_cluster_chain` looks neither at its start cluster nor at the room left.
  `FatChains.WriteExact` says exactly when it works on any formatted volume: there are enough free clusters,
  and a file of more than one sector does not start at the lowest free one.
  `FatChains.FreeStartCycles` shows what happens in the one case, `FatChains.FullVolumeFails` that nothing
  can be done in the other, in which the code searches on past the volume's clusters.
* `write_file` writes the second copy of the allocation table nine sectors behind the first one, whatever the
  size of a table is (fat.c:338).  `FatDisk.FlushExact`: both copies are right and nothing else is written over,
  for every disk and table, if and only if a table has nine sectors.
* `navigate_to_PL1` does not look whether it was given a frame.  `Paging.AddressSpace.MapMem` keeps its
  promise whenever there are as many free frames as tables lacking, and `PagingLimits.MappingNeedsFrames`
  shows that with fewer no outcome at all could keep it; `PagingLimits.NoRoomToMap` is such a memory.
* Thread structures lie in frames that are given back and used again, except for the first thread's, which the
  first tick takes from the heap (scheduler.c:101).  `ThreadFrames.TickHolds` says exactly when a tick leaves
  every thread in the system on a frame of its own that is not free: some thread is alive, or the current one
  lies outside the managed frames.  As the first thread never ends, this is always so
  (`ThreadFrames.TickKeeps`, `ThreadFrames.RunIsFresh`), although nothing in the code looks at it.
* `strncpy` writes one byte less than asked when it meets the terminator earlier, and when the terminator
  is the last byte counted its counter wraps and it writes 2^64 - 1 bytes more than asked.
  `CStrings.WrittenExact` gives the exact condition for every length, and `CStrings.Strncpy` writes just
  that many.
* `strcasecmp` goes on past the end of its second string exactly when it meets a space of the first one
  there (`CStrings.OverrunsExact`); "a " against "a" is such a pair (`CStrings.SpaceOverruns`).
* File names are compared up to bit 5 of each character, not up to case.  `CStrings.FoldIsCase` says exactly
  for which names this is the same thing, and "[" and "{" are one name (`CStrings.BracketsFold`).
* The limit given to `vfs_get_full_filepath` bounds the path and not what is written, because the copy of
  the last name is padded to 255 bytes.  `VfsPrint.WritesBelowLimit` says exactly when a call leaves the bytes
  at the limit and beyond alone, by a condition that can be checked before the call, and
  `VfsPrint.WholeAndBelow` exactly when it also prints the whole path; "/a/b" with a limit of 256 is written
  two bytes too far (`VfsSample.LimitBroken`).
* The number `vfs_get_full_filepath` returns does not always tell whether the path was printed
  (`VfsPrint.PrintExact`): with a limit of 5 it is 4 for "/a/b", which is, and for "/abc", which is not
  (`VfsSample.NumberDoesNotTell`).
* A last name of 255 characters does not end within the 256-byte buffer of the walk
  (`Vfs.NameFitsExact`, `Vfs.LongNameSpills`).
* `sorted_list_remove` always removes something (`SortedLists.RemovedSorted`).
* A negative descriptor can lead `sorted_list_get` behind the last element, because the difference of the
  descriptors is cut to an int.  It does so exactly when the difference to the middle entry of the table
  does not fit (`FileTables.NegativeLookup`); one open file and the descriptor -2^31 are enough
  (`FileTables.NegativeEscapes`).

## Model

| member | source | states |
|---|---|---|
| Bits.AndField | kernel/src/paging.c:241 | Masking with a run of ones keeps exactly that bit field of the word, in place; all the mask arithmetic rests on it. |
| PageEntry.SetAdrField | kernel/src/paging.c:236-239 | Storing an address replaces bits 12 to 51 of an entry and no other bit. |
| PageEntry.SetTableFlags | kernel/src/paging.c:175 | Marking an entry present, writable and user sets its low three bits and no other. |
| PageEntry.KernelOffsetField | kernel/src/paging.c:161-164 | The kernel's shift-and-mask index for each level is the nine-bit field the processor uses. |
| PageEntry.ReadBackExact | kernel/src/paging.c:227-242 | The kernel reads back the page-aligned address it stored if and only if the address is below 2^48 and flag bits 8 to 11 are clear. |
| PageEntry.GlobalBreaksReadBack | kernel/src/paging.c:240-242 | An entry marked global (bit 8) is read back at a wrong address. |
| PageEntry.KernelAgrees | kernel/src/paging.c:180 | On entries without bits 7 to 11 that name memory below 2^48, kernel and processor read the same table address. |
| PageEntry.TableEntryFields | kernel/src/paging.c:173-178 | The entry written for a new table is present, writable, open to user programs, plain, and names the new frame, whatever absent entry was there before. |
| PageEntry.StoredEntry | kernel/src/paging.c:227-239 | What the masks make of any entry, with the flags 7 and any address: bits 0 to 2 are set, bits 12 to 51 come from the address, and every other bit is as it was. |
| PageEntry.TableEntryExact | kernel/src/paging.c:173-178 | The entry for a new table has bits 0 to 2 set and the frame's address, and every other bit as it was. |
| PageEntry.LeafEntry | kernel/src/paging.c:190-191 | A mapped entry names the frame of the given address, and is present, writable or open to user programs exactly when it was before or the flags say so. |
| PageEntry.UnmapStaysPresent | kernel/src/paging.c:203-204 | Unmapping leaves an entry exactly as present as it was, and naming frame 0. |
| PageTables.Meet | kernel/src/paging.c:171-181 | In a tree of tables two addresses reach the same level-j table exactly when they agree on all higher address bits. |
| PageTables.WalkReadsSlot | kernel/src/paging.c:154-183 | The processor's walk yields the leaf entry of the page if that is present, and a fault otherwise; the entries above it take away no right, so the page may be written and used exactly as its own entry says. |
| PageTables.LinkTree | kernel/src/paging.c:174-179 | Hanging a zeroed free frame into an absent slot keeps the tables a tree of distinct frames. |
| PageTables.LinkTableAt | kernel/src/paging.c:174-179 | It builds that one table, for the addresses that go through the slot, and moves no other. |
| PageTables.LinkSlots | kernel/src/paging.c:174-179 | It changes the leaf entry of no page. |
| PageTables.SetLeafTree | kernel/src/paging.c:190-191 | Writing a leaf entry keeps the tree. |
| PageTables.SetLeafSlots | kernel/src/paging.c:184-192 | Writing the leaf entry of one page changes the entry of no other of the 2^36 pages. |
| PageTables.BuiltLacking | kernel/src/paging.c:171-182 | Building the path to one address removes exactly its missing tables from those any set of addresses lacks. |
| Frames.RangeMap | kernel/src/paging.c:124-143 | A batch operation changes exactly its range of the page map, page by page as the single operation does. |
| Frames.RunKeepsAccounting | kernel/src/paging.c:75-143 | Over every run of single and batch operations and requests, free, used and reserved memory add up to the total, used plus reserved is 4096 times the number of used frames (modulo 2^64), no frame below the hint is free, and the search from the hint finds the lowest free frame, or none exactly when none is free. |
| Frames.RunCounted | kernel/src/paging.c:75-143 | Over every run in which frames are given back by the operation that belongs to how they were taken, used memory is that of the locked frames and reserved memory that of the reserved ones (modulo 2^64). |
| Frames.HintedSearch | kernel/src/paging.c:75-85 | Searching from the hint finds the lowest free frame of all. |
| Frames.RequestTakes | kernel/src/paging.c:77-85 | With a frame available, a request takes exactly one frame, which was free. |
| Frames.RequestFails | kernel/src/paging.c:77-85 | A request fails exactly when no frame is free. |
| Frames.NullMeansExhausted | kernel/src/paging.c:77-85 | NULL means exhaustion if and only if frame 0 is in use. |
| Frames.FrameZeroLooksLikeNull | kernel/src/paging.c:77-85 | With frame 0 the only free frame a request succeeds and returns the address 0. |
| Frames.FrameAllocator.constructor | kernel/src/paging.c:29-36 | After the initial marking the first megabyte is reserved, the rest free, the accounting holds, and the counters count what their names say. |
| Frames.FrameAllocator.LockPage | kernel/src/paging.c:87-94 | Does the single lock step on map, hint and counters, and keeps the invariant. |
| Frames.FrameAllocator.FreePage | kernel/src/paging.c:96-104 | Does the single free step, lowering the hint when needed. |
| Frames.FrameAllocator.ReservePage | kernel/src/paging.c:106-113 | Does the single reserve step. |
| Frames.FrameAllocator.UnreservePage | kernel/src/paging.c:114-122 | Does the single unreserve step. |
| Frames.FrameAllocator.LockPages | kernel/src/paging.c:124-128 | The loop does the lock step on each page of the range. |
| Frames.FrameAllocator.FreePages | kernel/src/paging.c:129-133 | The loop does the free step on each page of the range. |
| Frames.FrameAllocator.ReservePages | kernel/src/paging.c:134-138 | The loop does the reserve step on each page of the range. |
| Frames.FrameAllocator.UnreservePages | kernel/src/paging.c:139-143 | The loop does the unreserve step on each page of the range. |
| Frames.FrameAllocator.RequestPage | kernel/src/paging.c:75-85 | The hinted loop returns the lowest free frame of all, marked used, or NULL when none is free. |
| Paging.AddressSpace.constructor | kernel/src/paging.c:53-55 | The fresh root table is a frame that was free, it is the whole tree, every address faults, and exactly one frame less is free. |
| Paging.AddressSpace.CreateTable | kernel/src/paging.c:174-179 | A missing table is made from a free frame; the tree is kept, with entries that take away no right, no leaf entry changes, one table less is lacking. |
| Paging.AddressSpace.Descend | kernel/src/paging.c:171-181 | One round of the loop arrives at the next table on the processor's own path. |
| Paging.AddressSpace.NavigateToPL1 | kernel/src/paging.c:154-183 | Returns the level-1 table of the address; builds just the tables it lacked, from free frames, and changes no page's entry. |
| Paging.AddressSpace.MapMemWithFlags | kernel/src/paging.c:184-194 | Writes the page's leaf entry; every other page's entry, every used frame outside the tables and every table's place is as before; frames taken are exactly the tables lacking. |
| Paging.AddressSpace.MapMem | kernel/src/paging.c:207-209 | Afterwards the processor translates the page to the given frame and grants writing and user access to it at all four levels; every other virtual page, mapped or not, translates as before, with the rights it had; the leaf entry keeps its other bits. |
| Paging.AddressSpace.MapPages | kernel/src/paging.c:210-214 | The same for a range: page i goes to frame i, writable and open to user programs, and all other pages keep translation and rights. |
| Paging.AddressSpace.RequestMappedPages | kernel/src/paging.c:222-226 | Each page of the range gets a frame that was free before, the frames are pairwise distinct and distinct from every old and new page table, and the pages may be written and used; all other pages keep translation and rights. |
| Paging.MappedTranslates | kernel/src/paging.c:184-192 | Leaf entries written as the kernel writes them are what the processor's walk then finds, with the rights they give, for the pages mapped and for all others. |
| Paging.PagesDistinct | kernel/src/paging.c:210-214 | Consecutive pages of a range of at most 2^19 pages are different pages, even across a wrap of the address. |
| PagingLimits.MappingNeedsFrames | kernel/src/paging.c:154-226 | No outcome can keep the promise of the mapping operations with fewer free frames than tables are lacking and page frames asked for; with as many, the operations keep it. |
| PagingLimits.RestLacks | kernel/src/paging.c:154-226 | Once the first pages of a range are mapped, the rest lacks none of the tables that those lacked, so a range mapped in parts needs no more frames than mapped at once. |
| PagingLimits.NoRoomToMap | kernel/src/paging.c:154-226 | Two used frames, one of them the root: three tables are lacking for every address and none can be had. |
| HeapSegments.BlocksDisjoint | kernel/src/memory.c:8-33 | Payloads lie inside the heap, never overlap one another, and never overlap a header. |
| HeapSegments.TryEnds | kernel/src/memory.c:58-77 | kmalloc's retry recursion ends if and only if some segment already fits or the size is at least a page; three rounds then suffice. |
| HeapSegments.Stuck | kernel/src/memory.c:34-35 | Below a page, growing changes nothing, and kmalloc would retry for ever. |
| HeapSegments.StuckHeap | kernel/src/memory.c:48-77 | In a fresh heap of one page, a request for 4040 bytes never ends. |
| HeapSegments.ReleaseWellFormed | kernel/src/memory.c:83-93 | Freeing keeps the list tiling the heap with no two free neighbours and a free last segment. |
| HeapSegments.PlaceLive | kernel/src/memory.c:61-71 | Allocating adds one block of exactly the size asked for and disturbs no other. |
| HeapSegments.PlaceExact | kernel/src/memory.c:64 | kmalloc's test is exact: a free segment with room for the block and a header may be cut, with the list staying well formed, if and only if it passes. |
| HeapSegments.ReleaseLive | kernel/src/memory.c:83-93 | Freeing removes that block and disturbs no other. |
| HeapSegments.ReleaseUndoesPlace | kernel/src/memory.c:58-93 | Freeing what was just allocated without growth restores the exact list. |
| HeapSegments.EmptyHeap | kernel/src/memory.c:83-93 | With nothing in use the heap is a single free segment. |
| HeapSegments.TryKeeps | kernel/src/memory.c:34-77 | Whatever growing and retrying a kmalloc does, the list stays well formed over the grown heap. |
| HeapSegments.RunKeeps | kernel/src/memory.c:34-93 | Over every run of kmalloc and free from a fresh heap the list stays well formed, and whenever no block is in use, in whatever order they were freed, the heap is one free segment again. |
| KernelHeap.ClientWritesHarmless | kernel/src/memory.c:8-93 | Writing anything inside blocks in use never damages the list of headers. |
| KernelHeap.HeaderWrites | kernel/src/memory.c:8-93 | Writing headers of the list touches no block in use. |
| KernelHeap.LiveApart | kernel/src/memory.c:58-93 | Two blocks in use are the same or at least a header apart. |
| KernelHeap.Heap.constructor | kernel/src/memory.c:48-57 | The fresh heap is one free segment with matching links. |
| KernelHeap.Heap.SplitHeapSegment | kernel/src/memory.c:8-22 | Cuts the segment in the linked headers as in the list, keeping next, previous and last links right. |
| KernelHeap.Heap.JoinHeapNextSegment | kernel/src/memory.c:23-33 | Joins a segment with its successor, keeping the links right. |
| KernelHeap.Heap.ExpandHeap | kernel/src/memory.c:34-47 | Lengthens the last segment by whole pages, rounded down; the error branch is unreachable. |
| KernelHeap.Heap.FindFit | kernel/src/memory.c:61-74 | The loop along the links finds the first free segment that is long enough, if there is one. |
| KernelHeap.Heap.Kmalloc | kernel/src/memory.c:58-77 | First fit, growing if nothing fits: the result is a new block of the size asked for, apart from all others; no header write lands in a block. |
| KernelHeap.Heap.Free | kernel/src/memory.c:83-93 | Both merge loops: the block goes, the links agree, no header write lands in a block. |
| KernelHeap.Heap.Memset | kernel/src/typedef.c:2-7 | Fills exactly the given bytes. |
| KernelHeap.Heap.Memcpy | kernel/src/typedef.c:8-14 | Copies exactly the given bytes, for separate regions and for overlapping ones with the source behind. |
| KernelHeap.Heap.Kcalloc | kernel/src/memory.c:78-82 | A new block, all zero; every other byte is as before, and no header write lands in a block. |
| KernelHeap.Heap.Krealloc | kernel/src/memory.c:94-100 | A new block with the old contents, cut off or zero-extended, in place of the old one; every other block keeps its bytes, no header write lands in a block, and no header lies in the new one. |
| HeapPages.MappedHeap.constructor | kernel/src/memory.c:48-57 | The requested pages are mapped to frames of their own, and the heap on them is one free segment. |
| HeapPages.MappedHeap.ExpandHeap | kernel/src/memory.c:34-47 | Growing requests and maps the new pages: each page of the heap, old or new, translates to a frame of its own that is in use and holds no page table, and old pages keep their frames. |
| HeapPages.MappedHeap.Kmalloc | kernel/src/memory.c:58-77 | kmalloc with its retries over mapped pages: the result is a new block of the size asked for, each byte of which translates to a frame in use; new heap pages take frames that were free, old pages keep theirs, and no header write lands in a block. |
| HeapPages.BackedGrown | kernel/src/memory.c:34-39 | Pages mapped behind the heap take fresh frames and leave the pages of the heap where they are. |
| HeapPages.BlocksBacked | kernel/src/memory.c:58-77 | Every byte of every block translates to the frame behind its heap page, and may be read, written and used. |
| FatTable.GetSet | kernel/src/fat.c:52-60 | Reading after a store gives the value modulo 4096 at its own cluster and the old value at every other, for both parities and the shared byte. |
| FatTable.PairIsTriple | kernel/src/fat.c:52-60 | Three bytes, read as one little-endian number, are two entries, the even cluster's in the lower half. |
| FatTable.EntriesSet | kernel/src/fat.c:70-80 | On the table as an array of 12-bit entries a store is an array update. |
| FatChains.ClusterSectors | kernel/src/fat.c:15-50 | Clusters lie inside the volume, different clusters have different sectors, and on FAT12 no cluster number is the end marker. |
| FatChains.DataStarts | kernel/src/fat.c:24-30 | The data area starts at the first sector that is not reserved, in a table, or needed for the root directory's entries of 32 bytes each. |
| FatChains.AreasFollow | kernel/src/fat.c:24-46 | Reserved sectors, tables, root directory and data area follow one another and do not overlap; what is read as table and as root directory lies in these areas. |
| FatChains.DataArea | kernel/src/fat.c:15-50 | Cluster 2 is the start of the data area, each cluster follows the one before, and there are exactly as many as fit into the volume. |
| FatChains.ClusterOfSector | kernel/src/fat.c:47-50 | Every sector from there on lies in exactly one cluster. |
| FatChains.IdentExact | kernel/src/fat.c:81-96 | The type is the narrowest one in which every cluster number lies below the reserved marks. |
| FatChains.WriteTouches | kernel/src/fat.c:235-262 | A write changes no sector but the first ones of the clusters it lists. |
| FatChains.WriteKeepsLayout | kernel/src/fat.c:235-262 | So it leaves every sector of the reserved area, the tables and the root directory as it was. |
| FatChains.ChainUnique | kernel/src/fat.c:207-218 | A start cluster has at most one terminated chain. |
| FatChains.ChainAcyclic | kernel/src/fat.c:207-218 | A terminated chain visits no cluster twice. |
| FatChains.WriteExact | kernel/src/fat.c:235-262 | On every formatted volume, a write yields a chain with the data, made of clusters that were free and touching nothing else, if and only if there are enough free clusters and the file takes one sector or does not start at the lowest free cluster. |
| FatChains.StoredNeedsRoom | kernel/src/fat.c:247-258 | No outcome at all stores a file in fewer free clusters than it has further sectors. |
| FatChains.FullVolumeFails | kernel/src/fat.c:247-258 | On a full volume no file of more than one sector can be stored, even from a marked cluster. |
| FatChains.FreeStartCycles | kernel/src/fat.c:247-258 | With an unmarked start cluster that is the lowest free one, a two-sector file becomes a cluster that follows itself: no chain at all. |
| FatChains.OtherChainsKept | kernel/src/fat.c:235-262 | Every chain that does not contain the start cluster keeps its clusters and its contents, and shares none with the new one. |
| FatChains.FilesKept | kernel/src/fat.c:235-262 | A write keeps all files' chains terminated and pairwise disjoint. |
| FatChains.RoundTrip | kernel/src/fat.c:219-262 | Whatever chain starts at the start cluster after a write, it has max(1, ceil(size/512)) clusters and holds the data rounded up to whole sectors. |
| FatChains.CreateStores | kernel/src/fat.c:325-329 | Taking the lowest free cluster and writing there always succeeds while enough clusters are free. |
| FatChains.CreateFree | kernel/src/fat.c:325-329 | It uses up exactly one free cluster for each sector. |
| FatChains.CreateKeepsChain | kernel/src/fat.c:325-329 | It disturbs no existing chain. |
| FatChains.RunStores | kernel/src/fat.c:300-329 | After any run of file creations that fits the volume, every file of the run has a chain of clusters of the volume, as long as its sectors, that holds its data, whatever was created after it. |
| FatChains.RunDisjoint | kernel/src/fat.c:300-329 | No two files of a run share a cluster. |
| FatDisk.FlushExact | kernel/src/fat.c:336-338 | Writing the table back makes both copies right and changes nothing else, for every disk and table, if and only if a table has nine sectors. |
| FatDisk.Remount | kernel/src/fat.c:106-117 | With two tables of nine sectors, mounting the disk after the table was written back gives the same entries, the same root directory and the same data in every cluster. |
| FatVolume.FatFilesystem.Mount | kernel/src/fat.c:106-117 | The first table and the root directory are read from where the boot sector says they are. |
| FatVolume.FatFilesystem.FlushTables | kernel/src/fat.c:336-338 | The table goes to the disk twice; on a volume with two tables of nine sectors the disk then holds the table, and directory and data are as before. |
| FatVolume.FatFilesystem.GetFatNextCluster | kernel/src/fat.c:52-60 | The 16-bit load and shift or mask read the 12-bit entry out of its two bytes. |
| FatVolume.FatFilesystem.SetFatNextCluster | kernel/src/fat.c:70-80 | The 16-bit read-modify-write stores the entry and changes no other. |
| FatVolume.FatFilesystem.FindFree | kernel/src/fat.c:62-65 | The search stops at the lowest free cluster, within the table. |
| FatVolume.FatFilesystem.GetFirstFreeCluster | kernel/src/fat.c:61-69 | Returns the lowest free cluster and marks it taken. |
| FatVolume.FatFilesystem.GetClusterChainLength | kernel/src/fat.c:207-218 | Terminates and counts the clusters of the chain, or the sectors of the root directory. |
| FatVolume.FatFilesystem.LoadFatClusterChain | kernel/src/fat.c:219-234 | Returns the contents of the chain sector by sector, or a copy of the root directory. |
| FatVolume.FatFilesystem.ReadClusterChainFromOffset | kernel/src/fat.c:288-298 | Puts the sectors base up to min(base + n, length) of the file at the front of the buffer and leaves the rest of it alone. |
| FatVolume.WindowIsSlice | kernel/src/fat.c:288-298 | A window of a chain holds that slice of what loading the whole chain gives. |
| FatVolume.FatFilesystem.WriteFatClusterChain | kernel/src/fat.c:235-262 | The loop does the specified write, on the packed table and the disk in place; with a marked start cluster the data are stored; no sector of the reserved area, the tables or the root directory changes. |
| FatVolume.FatFilesystem.CreateFile | kernel/src/fat.c:325-329 | Taking the lowest free cluster and writing there does the specified creation, and the file's chain can be loaded. |
| FatVolume.FatFilesystem.WriteThenLoad | kernel/src/fat.c:219-262 | Writing and then loading returns the data, rounded up to whole sectors. |
| FatVolume.FatFilesystem.CreateFiles | kernel/src/fat.c:325-329 | After any number of creations every file's first cluster starts a chain that can be loaded and holds its data. The kernel's copy of the root directory stays what the disk holds. |
| RingBuffer.SlotsDistinct | kernel/src/circular_buffer.c:23-59 | Different elements of the buffer have different places, across the wrap. |
| RingBuffer.CircularBuffer.constructor | kernel/src/circular_buffer.c:8-19 | A new buffer is empty. |
| RingBuffer.CircularBuffer.Push | kernel/src/circular_buffer.c:23-40 | Appends exactly the first min(count, free) items, in order. |
| RingBuffer.CircularBuffer.Pop | kernel/src/circular_buffer.c:41-59 | Removes exactly the oldest min(count, size) items into the output, in order, leaving the rest of the output alone. |
| SchedulerModel.StepInv | kernel/src/scheduler.c:96-121 | Ticks, new threads and exits keep each thread at most once among the current one and the pool, and no dead thread waiting. |
| SchedulerModel.RunInv | kernel/src/scheduler.c:96-121 | So does every run. |
| SchedulerModel.BoundedWait | kernel/src/scheduler.c:96-121 | The thread at place k of the pool runs after exactly k + 1 ticks, with its saved stack pointer, whatever starts or ends meanwhile. |
| SchedulerModel.FullCircle | kernel/src/scheduler.c:96-121 | An interrupted thread resumes with its stack pointer after exactly as many further ticks as threads were waiting. |
| SchedulerModel.SpawnRuns | kernel/src/scheduler.c:96-121 | A new thread runs after exactly one tick more than there are threads waiting, and starts with the stack it was given, whatever a thread at its address had before. |
| SchedulerModel.TickConserves | kernel/src/scheduler.c:96-121 | A tick loses no living thread if and only if the current one is dead or the pool has room for it. |
| SchedulerModel.RunConserves | kernel/src/scheduler.c:96-121 | Over every run with at most 256 living threads, the current thread and the pool hold exactly those that were started and have not ended. |
| SchedulerModel.ChoosesLiving | kernel/src/scheduler.c:96-121 | The thread chosen is alive exactly when any thread is. |
| Scheduler.Scheduler.GetNextThread | kernel/src/scheduler.c:95-121 | Before the start and on the first tick the interrupted code goes on and the pool is untouched; every later call is the modelled tick on the ring buffer and the thread structures; the scheduler's state stays valid for the next call. |
| Scheduler.Scheduler.Spawn | kernel/src/process.c:87 | A started thread is put at the end of the pool. |
| Scheduler.Scheduler.ThreadExit | kernel/src/thread.c:14-19 | The current thread is marked dead, and no other. |
| Scheduler.Scheduler.Start | kernel/src/scheduler.c:89 | Sets the flag that lets ticks switch threads. |
| Scheduler.Scheduler.Drive | kernel/src/scheduler.c:95-121 | Any sequence of ticks, new threads and exits, done by the code, is a run of the model. |
| Scheduler.Scheduler.DriveUntil | kernel/src/scheduler.c:95-121 | Over any such sequence the code makes the thread at place k of the pool current after exactly k + 1 ticks, with its saved stack pointer, and with at most 256 living threads loses none. |
| ThreadFrames.AtStartIsKernel | kernel/src/kernel.c:88-89 | With the heap at 0x80000000000 and memory below it, the code that becomes the first thread is a system of one thread from which runs can start. |
| ThreadFrames.BootedIsKernel | kernel/src/scheduler.c:74-105 | After start_scheduler and the first tick, with the first thread on the heap at 0x80000000000, the threads in the system are two, both alive, on frames of their own, the first outside the managed frames and the other on one in use. |
| ThreadFrames.TickHolds | kernel/src/scheduler.c:108-114 | A tick, which gives a dead thread's frame back, keeps every thread in the system on a frame of its own that is not free if and only if some thread is alive or the current one lies outside the managed frames. |
| ThreadFrames.TickKeeps | kernel/src/scheduler.c:96-121 | With at most 256 threads alive a tick keeps all this, and keeps the first thread in the system and alive. |
| ThreadFrames.TickFrees | kernel/src/scheduler.c:108-114 | A tick gives back the frame of a dead current thread, so that one more is available, and otherwise leaves the frame map alone. |
| ThreadFrames.RunUses | kernel/src/thread.c:21-45 | Over every run in which others only take frames, the frames in use are those before, plus those taken, plus one for each new thread, minus one for each ended thread that a tick has removed. |
| ThreadFrames.NoLeak | kernel/src/thread.c:21-45 | If the pool has room for each new thread, the frames in use, apart from those others took, go up and down with the number of threads. |
| ThreadFrames.NewThreadRuns | kernel/src/thread.c:21-42 | A new thread runs after exactly one tick more than there are threads waiting, with the stack it was given, over runs with the frame allocator's addresses. |
| ThreadFrames.NewThreadHolds | kernel/src/thread.c:21-42 | A new thread gets a frame that no thread in the system has. |
| ThreadFrames.StepKeeps | kernel/src/scheduler.c:96-121 | So does every event: a tick, a new thread, the exit of a thread other than the first, and others taking frames and giving back those no thread lies in. |
| ThreadFrames.RunIsFresh | kernel/src/thread.c:21-45 | Every run of such events, with the frame allocator's addresses, is a run of the scheduler in which new threads have new addresses, and the first thread stays in the system and alive. |
| ThreadFrames.MachineWait | kernel/src/scheduler.c:96-121 | Bounded waiting over such runs from start_scheduler on: the thread at place k of the pool runs after exactly k + 1 ticks, with no assumption about addresses. |
| ThreadFrames.ThreadSystem.constructor | kernel/src/scheduler.c:74-105 | start_scheduler and the first tick lead to a state in which all this holds. |
| ThreadFrames.ThreadSystem.Tick | kernel/src/scheduler.c:96-121 | The frame allocator and the scheduler together do the modelled tick; a dead current thread's frame is free afterwards, and otherwise the frame map is as before. |
| ThreadFrames.ThreadSystem.Start | kernel/src/thread.c:21-42 | They do the modelled start of a thread, on the lowest free frame. |
| ThreadFrames.ThreadSystem.End | kernel/src/thread.c:14-19 | They do the modelled exit. |
| ThreadFrames.ThreadSystem.TakeFrame | kernel/src/paging.c:75-85 | A frame taken by someone else leaves all threads as they are. |
| ThreadFrames.ThreadSystem.OtherUse | kernel/src/paging.c:87-122 | So does any single-page operation that gives back no thread's frame. |
| ThreadFrames.ThreadSystem.Drive | kernel/src/scheduler.c:95-121 | Any sequence of these, done by the code of both, is a run of the machine, with as many frames in use as the count says. |
| ThreadFrames.ThreadSystem.DriveUntil | kernel/src/scheduler.c:95-121 | Over any such sequence the code makes the thread at place k of the pool current after exactly k + 1 ticks, with its saved stack pointer. |
| CStrings.OrderZero | kernel/src/string.c:58-64 | The string comparison is zero exactly for equal strings. |
| CStrings.OrderDecides | kernel/src/string.c:58-64 | The result is the difference of the first characters that differ, where those from 0x80 on are negative and so come first. |
| CStrings.OrderCompares | kernel/src/string.c:58-64 | It is antisymmetric and transitive, as the sorted lists need. |
| CStrings.FoldsToSpace | kernel/src/string.c:67 | Under the fold with 32 only the terminator and the space look like a space. |
| CStrings.OverrunsExact | kernel/src/string.c:65-71 | The comparison runs past the second string if and only if the first one, equal up to there, has a space where the second ends. |
| CStrings.SpaceOverruns | kernel/src/string.c:65-71 | The pair "a " and "a" does. |
| CStrings.FoldIsCase | kernel/src/string.c:65-71 | Comparing a string ignores case and nothing else, whatever it is compared with, if and only if it consists of letters. |
| CStrings.BracketsFold | kernel/src/string.c:65-71 | "[" and "{" compare equal. |
| CStrings.Strcmp | kernel/src/string.c:58-64 | Computes that order without reading past either terminator. |
| CStrings.Strcasecmp | kernel/src/string.c:65-71 | The difference at the first place where the guard fails, wherever that is in memory; unless it runs past the second string, zero exactly for strings equal up to bit 5 of each character. |
| CStrings.Strchr | kernel/src/string.c:4-10 | The first occurrence, or none. |
| CStrings.Strrchr | kernel/src/string.c:11-20 | The last occurrence, or none. |
| CStrings.Strlen | kernel/src/string.c:110-114 | The number of characters before the terminator. |
| CStrings.Strcpy | kernel/src/string.c:116-123 | Copies the characters and the terminator and writes nothing else. |
| CStrings.WrittenExact | kernel/src/string.c:124-135 | The copy keeps to its n bytes if and only if the terminator is not the last of them; then the count wraps and it writes 2^64 - 1 bytes too many. |
| CStrings.Strncpy | kernel/src/string.c:124-135 | For every length, writes the characters, and zeros behind them, and nothing else, as many bytes as WrittenExact says. |
| VfsTree.ChildFound | kernel/src/vfs.c:65-69 | A node is found in its parent under its own name. |
| VfsTree.FinalStep | kernel/src/vfs.c:73-91 | Leaving out the final name stops exactly one lookup early: looking up the last name from there is the whole walk, for every path. |
| VfsTree.WalkAppend | kernel/src/vfs.c:77-89 | One more name at the end of a path is one more lookup at the end of the walk. |
| VfsTree.RoundTrip | kernel/src/vfs.c:73-91 | The printed path of every node but the root leads from the root back to it, and without its last name to its parent. |
| VfsTree.UpWalk | kernel/src/vfs.c:62-63 | From any directory ".." leads where the directory's path leads without its last name, to the node whose path the directory's continues; from the root it leads to the root. |
| VfsTree.DotWalk | kernel/src/vfs.c:60-61 | From any directory "." leads to the directory. |
| VfsTree.EntryExact | kernel/src/vfs.c:57-71 | Every other name leads from a directory exactly to the node below it with that name up to bit 5 of its characters; no name leads anywhere from what is no directory. |
| VfsTree.PathsDiffer | kernel/src/vfs.c:197-215 | Different nodes have different paths. |
| VfsPrint.PrintExact | kernel/src/vfs.c:197-215 | For every limit: the whole path is printed if and only if the parent's path, one more and the name are below the limit. A number returned below the limit less one means that it was, one from the limit on that it was not; the root always returns 1. |
| VfsPrint.ToldExact | kernel/src/vfs.c:197-215 | The number returned is the length of the whole path less one for each name left out, whose slash is not counted, and one more when only the root is shown. |
| VfsPrint.WritesBelowLimit | kernel/src/vfs.c:207-213 | A call leaves every byte at the limit and beyond alone, whatever the buffer holds, if and only if each path on the way to the node that passes the code's test leaves room for a name padded to 255 bytes. |
| VfsPrint.WholeAndBelow | kernel/src/vfs.c:207-213 | The whole path is printed and nothing written at the limit or beyond if and only if the path with its last name padded to 255 bytes is not longer than the limit, but for one case that is off by one. |
| VfsSample.LimitBroken | kernel/src/vfs.c:197-215 | Printing "/a/b" with a limit of 256 prints the whole path and writes up to byte 257. |
| VfsSample.NumberDoesNotTell | kernel/src/vfs.c:197-215 | With a limit of 5 the number returned is 4 for "/a/b", which is printed, and for "/abc", which is not. |
| VfsInsert.AddedTree | kernel/src/vfs.c:42-55 | Adding an entry with a good new name keeps the tree: parents and children agree, names are told apart, children are sorted. |
| VfsInsert.WalkKept | kernel/src/vfs.c:42-55 | Every walk that led somewhere still leads there. |
| VfsInsert.CreatedFound | kernel/src/vfs.c:130-144 | A folder created under a path is what that path then leads to. |
| Vfs.AddedPaths | kernel/src/vfs.c:42-55 | No existing path changes, and the new one is that of the directory followed by the name. |
| Vfs.FileSystem.constructor | kernel/src/vfs.c:16-26 | The root alone is a tree. |
| Vfs.FileSystem.GetSingleEntryFromDir | kernel/src/vfs.c:57-71 | Finds ".", "..", or the child with that name up to bit 5 of its characters, and NULL otherwise or outside a directory. |
| Vfs.FileSystem.NavigateTo | kernel/src/vfs.c:73-91 | The pointer loop over slashes, names and the 256-byte buffer does the walk, for every path whose names fit the buffer. |
| Vfs.NameFitsExact | kernel/src/vfs.c:83-84 | The copy of a name stays within the 256-byte buffer and leaves a terminator there if and only if the name has at most 255 characters, or 254 for the last name of a path. |
| Vfs.LongNameSpills | kernel/src/vfs.c:83-84 | A last name of 255 letters does not fit. |
| Vfs.FileSystem.GetFullFilepath | kernel/src/vfs.c:197-215 | For every limit: prints the path of the nearest node on the way up that fits, terminated and padded, leaves the rest of the buffer alone, and returns the length counted. |
| Vfs.PrintedLeadsBack | kernel/src/vfs.c:73-91 | The buffer that printing a node's path leaves behind is a path the navigation can take, and it leads back to the node, or to its parent when the final name is left out. |
| Vfs.FileSystem.InsertFile | kernel/src/vfs.c:42-55 | Copies the name, fills in the node and puts it among the sorted children; its name, parent and flags are those given; the tree, the other nodes and all paths are kept, and the new path is that of the directory followed by the name. |
| Vfs.FileSystem.PlaceOf | kernel/src/sorted_list.c:25-38 | The binary search by strcmp finds the specified place among the children. |
| Vfs.FileSystem.CreateFolder | kernel/src/vfs.c:130-144 | Fails exactly when the way to the folder does not exist; otherwise the path leads to the new folder and all other paths and nodes are as before; the folder has the name, the parent and the flags given. |
| SortedLists.SeekLands | kernel/src/sorted_list.c:25-38 | The binary search ends at an equal element if there is one, and otherwise between the smaller and the larger ones. |
| SortedLists.SearchIn | kernel/src/sorted_list.c:25-38 | The loop computes the search's place. |
| SortedLists.InsertedSorted | kernel/src/sorted_list.c:40-52 | Inserting keeps the order and adds exactly the element. |
| SortedLists.RemovedSorted | kernel/src/sorted_list.c:53-57 | Removing keeps the order and takes out one element, which equals the one sought exactly when the list has such an element. |
| SortedLists.Memmove | kernel/src/typedef.c:72-86 | Moves overlapping elements as if through a separate buffer, in either direction. |
| SortedLists.SortedList.constructor | kernel/src/sorted_list.c:6-14 | A new list is empty, with one place. |
| SortedLists.SortedList.Resize | kernel/src/sorted_list.c:20-23 | The elements move to a larger array unchanged. |
| SortedLists.SortedList.Search | kernel/src/sorted_list.c:25-38 | The search over the elements in the array. |
| SortedLists.SortedList.Insert | kernel/src/sorted_list.c:40-52 | Grows if needed, shifts and stores; size stays below capacity. |
| SortedLists.SortedList.Remove | kernel/src/sorted_list.c:53-57 | Shifts the rest down over the element. |
| SortedLists.SortedList.Get | kernel/src/sorted_list.c:59-65 | The element found if it matches the key, NULL otherwise. |
| FileTables.CreatedLast | kernel/src/file_table.c:57-63 | A new descriptor is larger than every open one, so its entry goes to the end. |
| FileTables.RemovedExactly | kernel/src/file_table.c:64-70 | Removing an entry of the table takes out that entry and no other. |
| FileTables.LookupFinds | kernel/src/file_table.c:6-8 | A lookup finds a descriptor's entry exactly when it is open, and stays within the elements exactly when some open descriptor is at least as large. |
| FileTables.NegativeLookup | kernel/src/file_table.c:6-8 | The lookup of a negative descriptor in a table with open files stays within the elements if and only if its difference to the middle entry fits an int, and never finds anything. |
| FileTables.LookupExact | kernel/src/file_table.c:6-8 | For every int: the lookup stays within the elements exactly when the descriptor is in reach, and finds an entry exactly when it is open. |
| FileTables.NegativeEscapes | kernel/src/file_table.c:6-8 | In the table after the first file is opened, the lookup of -2^31 ends behind the last element. |
| FileTables.StepMeans | kernel/src/file_table.c:57-70 | One call keeps the order and does to the set of open files what it means. |
| FileTables.RunMeans | kernel/src/file_table.c:57-70 | After any sequence of calls the list is strictly sorted, holds exactly the open files, and the search of each open descriptor finds the entry created for it. |
| FileTables.FileTable.CreateEntry | kernel/src/file_table.c:57-63 | Gives out a descriptor never used before and records the file under it. |
| FileTables.FileTable.Lookup | kernel/src/file_table.c:16 | Defined for every descriptor in reach, negative ones included; present exactly when open, and then the right entry. |
| FileTables.FileTable.RemoveEntry | kernel/src/file_table.c:64-70 | Closes exactly that descriptor. |
| Crc.TableEntry | gnu-efi/lib/crc.c:22-66 | Each of the 256 table entries is eight single-bit steps of its index. |
| Crc.Shift8Linear | kernel/src/typedef.c:53-60 | Eight single-bit steps are linear over exclusive or. |
| Crc.TableStep | gnu-efi/lib/crc.c:214 | One table lookup does the work of eight single-bit steps. |
| Crc.Crc32b | kernel/src/typedef.c:48-62 | The bitwise loop computes the checksum. |
| Crc.CalculateCrc | gnu-efi/lib/crc.c:201-218 | The table-driven loop computes the same checksum, for every byte string. |
| CrcHeader.FeedInjective | gnu-efi/lib/crc.c:201-218 | Different registers stay different, whatever bytes follow. |
| CrcHeader.BurstDetected | gnu-efi/lib/crc.c:201-218 | Any change confined to at most four consecutive bytes changes the checksum. |
| CrcHeader.EmptyCrc | gnu-efi/lib/crc.c:211-217 | The checksum of no bytes at all is 0. |
| CrcHeader.Residue | gnu-efi/lib/crc.c:201-218 | Any bytes followed by their own checksum, low byte first, have the checksum 0x2144DF1C. |
| CrcHeader.HeaderCrcIs | gnu-efi/lib/crc.c:115-116 | The checksum of a header is that of its bytes with the field zero, whatever the field holds. |
| CrcHeader.SetThenCheck | gnu-efi/lib/crc.c:93-198 | A header whose checksum was just set passes the check if and only if the size is nonzero and within the limit. |
| CrcHeader.DamageDetected | gnu-efi/lib/crc.c:146-198 | Damage to at most four consecutive bytes of a valid header, outside or inside the checksum field, is always found. |
| CrcHeader.SetCrcAltSize | gnu-efi/lib/crc.c:93-116 | Stores the checksum computed with the field itself zero, and changes nothing else. |
| CrcHeader.CheckCrcAltSize | gnu-efi/lib/crc.c:146-198 | Accepts exactly the headers with a matching checksum and an allowed size, and leaves the header as it was. |

## Left out

- Initialisation of paging: the scan of the memory map, the cr3 load and the TLB; the model starts from an allocator with the first megabyte reserved and an empty root table.
- Frames.FrameAllocator.constructor: marks the first megabyte; the map itself, the kernel and the other reserved regions are marked by the batch operations that are modelled, at places the memory map gives.
- Running out of frames while mapping: `navigate_to_PL1` would go on with frame 0 as a table; what that does to memory is not described, only that no promise could be kept.
- `unmap_mem` as an operation, `PT_RESET_FLAG` (never called) and `map_fb_pages` (the mapping loop with other flags): only the effect of unmapping on one entry is stated.
- The last, partial frame that `total_mem/4096 + 1` counts is not singled out.
- Paging.AddressSpace.MapPages: the count is at most 2^19, since the C loop computes `i*4096` in an `int`.
- Paging.AddressSpace.RequestMappedPages: the byte count is at most 0x7ffff000, since the loop counter is an `int`.
- Frames.FrameAllocator.LockPages: requires a range inside the page map of at most 2^19 pages, beyond which the `int` product of the loop overflows.
- Frames.FrameAllocator.FreePages: the same.
- Frames.FrameAllocator.ReservePages: the same.
- Frames.FrameAllocator.UnreservePages: the same.
- KernelHeap.Heap.constructor: the pages of the first heap are taken as mapped; `HeapPages.MappedHeap` maps them.
- KernelHeap.Heap.ExpandHeap: only the headers; `HeapPages.MappedHeap.ExpandHeap` adds the mapping.
- HeapPages.MappedHeap.ExpandHeap: requires addresses below 2^48 and as many free frames as pages and tables needed.
- HeapPages.MappedHeap.Kmalloc: the sizes of KernelHeap.Heap.Kmalloc, and addresses below 2^48 and as many free frames as the pages to grow by and their tables need; freeing, clearing and resizing are proved in `KernelHeap`, on headers and bytes alone.
- HeapPages.MappedHeap.constructor: the same addresses and frames.
- KernelHeap.Heap.Kcalloc: the same sizes as Kmalloc.
- KernelHeap.Heap.Krealloc: the same sizes as Kmalloc.
- KernelHeap.Heap.Kmalloc: sizes below 2^31, since the growth loop multiplies an `int` by the page size; below a page the size must already fit, as the call does not return otherwise.
- KernelHeap.Heap.Free: requires the address of a block in use, as the source trusts its argument.
- KernelHeap.Heap.Memcpy: not for a destination inside the source region, which repeats bytes; the heap never copies so.
- Directory entries, long and short names, and the rest of `write_file`: only its allocation and data write are modelled.
- FatVolume.FatFilesystem.Mount: requires a formatted volume, at least one table, and at most 127 sectors for a table and for the root directory, because the drivers' sector count is a signed `char`; the boot sector's fields are a parameter.
- FatVolume.FatFilesystem.FlushTables: the same 127 sectors, and a disk with room for what is written.
- FatVolume.FatFilesystem.WriteFatClusterChain: not for cluster 0, where the code goes on to write sectors after copying the root directory, nor without enough free clusters, where nothing can be stored (`FatChains.StoredNeedsRoom`); the data is as long as the sectors written, since the last sector is filled from whatever follows the file's bytes.
- FatVolume.FatFilesystem.FindFree: requires a zero entry in the table; without one the source reads on past its end.
- FatVolume.FatFilesystem.GetFirstFreeCluster: the same.
- FatVolume.FatFilesystem.CreateFile: requires enough free clusters; `FatChains.StoredNeedsRoom` shows that nothing can be stored otherwise.
- FatVolume.FatFilesystem.LoadFatClusterChain: requires a chain that ends in 4095.
- FatVolume.FatFilesystem.ReadClusterChainFromOffset: requires such a chain and a base that is not beyond its end; the source reads table entries that are no clusters otherwise.
- FatVolume.FatFilesystem.GetClusterChainLength: requires a chain that ends in 4095, as the other chain readers do; the loops do not end otherwise.
- Sectors per cluster: one sector of each cluster is read and written, as in the source, whatever the boot sector says.
- The lock of the ring buffer: push and pop are atomic steps, and nothing is said about contention.
- RingBuffer.CircularBuffer.Push: elements are values of one type instead of `element_size` bytes each.
- Stack contents and registers of threads.
- ThreadFrames.MachineWait: for runs with at most 256 threads alive and a free frame for each new thread, which the source does not test, in which the first thread, an endless loop, does not end and nobody gives back a thread's frame; the memory is below 8 TiB, where the heap lies.
- ThreadFrames.TickKeeps: the same bounds.
- ThreadFrames.RunIsFresh: the same bounds.
- ThreadFrames.NoLeak: for runs in which the pool has room for each new thread and others only take frames; a thread that finds the pool full is lost with its frame.
- ThreadFrames.RunUses: others only take frames; what they give back is theirs to count.
- ThreadFrames.ThreadSystem.constructor: one thread is started before the first tick; `ThreadFrames.AtStartIsKernel` is where runs with more of them start. The address of the first thread's structure is a parameter, from the heap's start on, and a frame must be free.
- ThreadFrames.ThreadSystem.Start: requires a free frame; the source writes through address 0 otherwise.
- ThreadFrames.ThreadSystem.OtherUse: batch operations are those of `Frames`, one page at a time.
- ThreadFrames.ThreadSystem.Drive: stands for the machine that calls the scheduler; the source has no such loop.
- Scheduler.Scheduler.Drive: stands for the machine that calls the scheduler; the source has no such loop.
- Reference counts, caches, pipes and reading or writing file contents; seek offsets of descriptors.
- CStrings.Strcasecmp: what follows a string in memory is a parameter, and the comparison must end within it.
- Vfs.FileSystem.NavigateTo: requires names that fit the 256-byte buffer; `Vfs.NameFitsExact` says which do, and the copy leaves no string in the buffer otherwise.
- Vfs.FileSystem.GetFullFilepath: requires a buffer with room for the padded copy of the last name shown.
- Vfs.FileSystem.InsertFile: requires a name of at most 254 characters without '/', space, "." or "..", new in its directory up to bit 5 of its characters; the source checks none of this, and printing and walking do not undo each other otherwise. The flags are not those of a directory, whose children the source would leave unset.
- Vfs.FileSystem.CreateFolder: requires the same of the last name of the path, and that the node above it is a directory.
- Children lists of directories are values of the tree; `SortedLists.SortedList` shows the shift on an array.
- `vfs_recursive_populate`, which fills the tree from the disk, and walking the path "/" or one that ends in a slash: the walk then looks up an empty name.
- SortedLists.Memmove: moves whole pointers instead of their bytes.
- SortedLists.SortedList.Remove: requires an element to remove; the size wraps otherwise.
- FileTables.FileTable.Lookup: requires a descriptor in reach, as SortedLists.SortedList.Get does.
- SortedLists.SortedList.Get: requires that the place found is not behind the last element; an element there would be read otherwise.
- FileTables.FileTable.CreateEntry: requires fewer than 2^31 - 1 descriptors ever given out, as `next_id` is an `int`.
- FileTables.FileTable.RemoveEntry: the `vfs_close` of the file and the freeing of the entry are not modelled.
- The CRC table is written as sixteen rows of sixteen entries instead of one array.
- CrcHeader.DamageDetected: not for damage that straddles the edge of the checksum field.
- Port I/O, interrupts, graphics, the terminal, the shell, and the rest of the boot library.
