# A verified model of the Simple-operation-system kernel core

This project models the core of a small 32-bit x86 hobby kernel in Dafny and proves properties of
that model. The kernel is booted by a Multiboot loader. The loader picks the biggest memory chunk
from the Multiboot memory map, splits it into a data and a code segment, and jumps into the kernel.
The kernel then does the following:
- sets up its descriptor tables;
- keeps one page bitmap per segment;
- turns on two-level paging;
- grows a heap with `sbrk`;
- runs a `malloc` (klmalloc) with ten small bins and a skip list of big blocks;
- reads the keyboard into a key cache;
- runs a one-line terminal;
- checks the header of one user module.

Each source file has its own module:

| module | file | models |
|---|---|---|
| `Types` | types.dfy | `u8`/`u16`/`u32`, `PAGE_SIZE`, `NULL`, 32-bit wrap-around, `Option`, `DivMod` |
| `Common` | common_lib.dfy | the libc of src/common.c, over a byte array standing for memory |
| `KBitmap` | kbitmap.dfy | src/kbitmap.c |
| `MemoryManager` | memory_manager.dfy | src/memory_manager.c; class `MemoryManager` holds the globals |
| `KHeap` | kheap.dfy | src/kheap.c; class `KernelHeap` holds the break and the mapped frames |
| `SkipRand` | alloc_rand.dfy | xor128 and `klmalloc_random_level` |
| `AllocBins` | alloc_bins.dfy | bin arithmetic |
| `SkipList` | skip_list.dfy | the big-block skip list, class `BigBins` |
| `AllocLayout`, `AllocLive`, `AllocSteps` | alloc_layout.dfy, alloc_live.dfy, alloc_steps.dfy | the allocator's layout invariants, one lemma per step |
| `Alloc` | alloc.dfy | klmalloc itself, class `Allocator` |
| `DescriptorTables` | descriptor_tables.dfy | GDT, IDT and TSS |
| `Paging` | paging.dfy | entry format, class `PageDirectory`, page-fault decoding |
| `Loader` | loader.dfy | the Multiboot loader |
| `KernelModule` | module.dfy | src/module.c |
| `Keyboard` | keyboard.dfy | src/keyboard.c |
| `KTerminal` | kterminal.dfy | src/kterminal.c |

The model follows the source's form:
- Code that updates globals in place becomes a class with `modifies` clauses.
- A fixed buffer becomes an `array`.
- The C loops become `while` loops with invariants.
- Pure computations (descriptor packing, bin sizes, key translation, header checks) become functions.

Integers are unbounded. The source's `u32int` arithmetic is written out with `Wrap32` wherever
the model follows it. A few places instead keep to values that cannot wrap, through a precondition
or a sum taken without wrap-around; "## Left out" names each of them.

A kernel `ASSERT`/`PANIC` halts the machine. The model treats it in one of two ways:
- as a precondition, where every caller meets it;
- as an explicit `halted` result, where a run-time resource can run out (the heap's end, a NULL
  page from the page allocator).

Multiboot constants follow the Multiboot Specification 0.6.96: the boot magic 0x2BADB002 (section
3.2), the flag bits and the memory-map entry layout with type 1 for available RAM (section 3.3).
Page-table entries, the page-fault error code and descriptor formats follow the Intel 64 and IA-32
Architectures Software Developer's Manual, volume 3A (sections 3.4.5, 4.3, 4.7, 6.11 and 7.2.2).

## Model

| member | source | states |
|---|---|---|
| Common.Memset | src/common.c:23-33 | memory afterwards is the old memory with n copies of the byte `c mod 256` at s, and s is returned |
| Common.Memcpy | src/common.c:35-46 | when dst is not inside (src, src+n), the n bytes at dst become the n source bytes and nothing else changes; dst is returned |
| Common.Memmove | src/common.c:48-68 | dst ends up holding the original n source bytes even when the regions overlap, and nothing outside dst changes |
| Common.Memchr | src/common.c:70-84 | the address of the first of the n bytes equal to c, or 0 when there is none; a c outside 0..255 never matches |
| Common.Memcmp | src/common.c:86-100 | the loop as written: the result is `Compare` of the two ranges, and the loop reads the pair at offset n too |
| Common.CompareZeroIff | src/common.c:86-100 | memcmp returns 0 exactly when the n bytes are equal |
| Common.CompareFirstMismatch | src/common.c:90-99 | the result is the byte difference at the first mismatch, wherever it lies |
| Common.MemcmpReadsPastEnd | src/common.c:90 | comparing n equal bytes as written reads n+1 pairs, one outside the ranges |
| Common.MemcmpBounded | src/common.c:86-100 | with the two loop tests swapped: same result, and every byte read lies in the n bytes |
| Common.MemcmpBoundedReadsWithin | src/common.c:90 | the corrected loop never reads past offset n-1 |
| Common.StrLen | src/common.c:102-109 | the index of the first NUL from s: every earlier byte is non-zero |
| Common.Strlen | src/common.c:102-109 | returns StrLen: the count of bytes before the first NUL; memory is unchanged |
| Common.Strcpy | src/common.c:111-122 | for a dst below src or past the string, dst gets the string at src and its terminator, nothing else changes; dst is returned |
| Common.Strncpy | src/common.c:124-137 | for a dst below src or past its n bytes, exactly n bytes are written: the string's bytes (at most n), then NUL padding; no terminator when the string has n or more bytes |
| Common.PrefixLen | src/common.c:128 | the number of source bytes strncpy copies: min(n, string length) |
| Common.StrCmpZeroIff | src/common.c:139-151 | strcmp returns 0 exactly when the two NUL-terminated strings are equal |
| Common.Strcmp | src/common.c:139-151 | returns StrCmp of the two strings, proved against the loop one step at a time |
| Common.DigitsRoundTrip | src/common.c:169-173 | reading back the digits itoa's loop produces gives the number, and the leading digit is '0' only for 0 |
| Common.ReverseLsbFirst | src/common.c:178-187 | reversing the least-significant-first digits gives the most-significant-first text |
| Common.ItoaTextValue | src/common.c:153-188 | itoa's text reads back as d: a '-' only for base 'd' and negative d, then -d; otherwise d as an unsigned 32-bit value |
| Common.Itoa | src/common.c:153-188 | buf holds ItoaText(base, d) and a NUL; nothing else in memory changes |
| Common.EmitLoop | src/common.c:169-173 | the do-while loop writes the digits of ud least significant first, one per pass |
| Common.ReverseRange | src/common.c:179-187 | the final loop reverses mem[lo..hi) in place and leaves every other byte alone |
| KBitmap.BitmapInBytes | src/kbitmap.c:3-7 | the least number of bytes that hold size bits: ceil(size / 8) |
| KBitmap.WithBit | src/kbitmap.c:9-21 | setting or clearing bit num changes that bit and no other bit of the bitmap |
| KBitmap.MaskOneBit | src/kbitmap.c:13-20 | or-ing in `1 << bit` sets that bit and and-ing with its complement clears it; every other bit of the byte is kept |
| KBitmap.SetBit | src/kbitmap.c:9-14 | the bitmap becomes WithBit(old, num, true) |
| KBitmap.ClearBit | src/kbitmap.c:16-21 | the bitmap becomes WithBit(old, num, false) |
| KBitmap.SameBitsSameBitmap | src/kbitmap.c:23-28 | a bitmap is determined by what test_bit reads from it |
| KBitmap.SetThenClear | src/kbitmap.c:9-21 | setting a clear bit and clearing it again restores the bitmap, and the other way round (alloc_page then free_page) |
| KBitmap.FirstClearBit | src/kbitmap.c:30-46 | as written: the least clear bit among the first bitmap_in_bytes(size) bytes, or NOT_FOUND when all of them are 0xff; the index may be a padding bit at or past size |
| KBitmap.PaddingBitReported | src/kbitmap.c:30-46 | for the bitmap [0x01] of one page, whose page is used, first_clear_bit returns 1, which is not a page |
| KBitmap.FirstClearBitBelow | src/kbitmap.c:30-46 | the least clear bit below size, or NOT_FOUND exactly when bits 0..size-1 are all set |
| MemoryManager.PagesFor | src/memory_manager.c:85-98 | the least number of whole pages that hold the given bytes |
| MemoryManager.RegionHolds | src/memory_manager.c:85-98 | the region reserved for a bitmap holds all its bits and is a whole number of pages |
| MemoryManager.MemoryManager.InitSegmentsInfo | src/memory_manager.c:13-25 | records the code, data and module segments and the fixed text-mode video segment; nothing else changes |
| MemoryManager.MemoryManager.InitMemoryBitmap | src/memory_manager.c:81-119 | places the code bitmap, then the data bitmap, at data_top, moves data_top past them, zeroes their first page, and marks used the data pages below data_top, the stack page and the kernel's code pages; for a code segment shorter than a page both bitmaps are one array, marked with the larger of the two counts; stops exactly when a set_bit would land past its bitmap's pages (Overrun) |
| MemoryManager.MemoryManager.InitMemoryManager | src/memory_manager.c:121-129 | the segments are recorded and both bitmaps built as above, shared bitmap included; the manager is initialised unless init_memory_bitmap overruns |
| MemoryManager.ShortDataOverruns | src/memory_manager.c:106-110 | a data segment shorter than a page always overruns: its stack bit is 0xFFFFFFFF, far past the bitmap |
| MemoryManager.NoOverrunWhenSized | src/memory_manager.c:81-119 | segments of at least a page, a data_top inside the data segment and kernel code that fits its segment never overrun |
| MemoryManager.BuildSharedBitmap | src/memory_manager.c:84-116 | with a code segment under a page, one zeroed bitmap at data_top holds the data pages below the new data_top, the stack page and the kernel's code pages |
| MemoryManager.MergeMarks | src/memory_manager.c:113-116 | marking the code pages on top of the data marks gives the larger count marked |
| MemoryManager.FirstFreeAfterInit | src/memory_manager.c:81-119 | after initialisation, the first page past the marked ones is free and every page below it is used, when it lies in the bitmap's zeroed first page and is not the stack page |
| MemoryManager.MemoryManager.AllocPage | src/memory_manager.c:27-43 | NULL before initialisation; otherwise the least free page below size is marked used and its address returned; NULL when every byte is full; halts when only padding bits are clear |
| MemoryManager.MemoryManager.FreePage | src/memory_manager.c:45-59 | TRUE exactly for an initialised bitmap and a page below its size, whose bit is then cleared; otherwise FALSE and nothing changes |
| MemoryManager.MemoryManager.AllocCodePage | src/memory_manager.c:61-64 | on the code bitmap: NULL before initialisation; otherwise the least free code page is marked used and its address returned; NULL when every byte is full; halts exactly when only padding bits are clear |
| MemoryManager.MemoryManager.AllocDataPage | src/memory_manager.c:66-69 | on the data bitmap, of the size alloc_page reads (code_size when the bitmaps are one array): NULL before initialisation; otherwise the least free data page is marked used and its address returned; NULL when every byte is full; halts exactly when only padding bits are clear |
| MemoryManager.MemoryManager.FreeCodePage | src/memory_manager.c:71-74 | FreePage on the code bitmap |
| MemoryManager.MemoryManager.FreeDataPage | src/memory_manager.c:76-79 | FreePage on the data bitmap, of the size free_page reads |
| MemoryManager.MarkUsed | src/memory_manager.c:104-116 | the for loops set every bit below count and keep every other bit |
| MemoryManager.ClearBelowSize | src/memory_manager.c:33-35 | a found index below size is the least free page |
| MemoryManager.NotFoundAllSet | src/memory_manager.c:36-37 | NOT_FOUND means every page is used |
| KHeap.HeapSize | src/kheap.c:17-18 | the heap size taken from a free space: whole pages, at most 1024 of them, at most half the space, and less than a page short of half unless capped |
| KHeap.KernelHeap.InitHeap | src/kheap.c:13-20 | in u32 arithmetic, the heap starts 1024 pages past the page tables and its size is HeapSize of the data space past that start; when the data segment reaches the start, the heap takes at most half of what lies beyond; brk is the start, page aligned exactly when the page tables are |
| KHeap.WrapPageAligned | src/kheap.c:15 | a sum taken modulo 2^32 is page aligned exactly when the sum is |
| KHeap.HeapPastDataEnd | src/kheap.c:15-18 | a 4 MiB data segment with page tables at 4 MiB: the free space wraps around and the heap gets all 1024 pages, past the segment's end |
| KHeap.KernelHeap.Sbrk | src/kheap.c:22-39 | halts exactly when the new break would not lie below the heap's end or a page comes back NULL; otherwise the old break is returned, brk grows by increment, one fresh frame is mapped per page and the new bytes are zero; a halt at the bound check leaves the mappings alone |
| KHeap.MapFrames | src/kheap.c:29-33 | the loop maps page i of the run to frame i, up to the first NULL frame, which stops it |
| KHeap.MapPagesSpec | src/kheap.c:29-33 | every page of the run maps to its own frame, and every other address keeps its mapping |
| KHeap.FirstNull | src/kheap.c:30-31 | the index of the first NULL frame: every earlier frame is a page |
| SkipRand.Xor128.Next | src/alloc.c:294-305 | one xor128 step; the result is the new w |
| SkipRand.AfterNonZero | src/alloc.c:294-305 | the generator never reaches the all-zero state from a state that is not all zero |
| SkipRand.RandomLevel | src/alloc.c:310-320 | the number of leading draws below SKIP_P, capped at SKIP_MAX_LEVEL; exactly level+1 draws are used |
| AllocBins.AdjustBin | src/alloc.c:172-183 | bins up to SMALLEST_BIN_LOG map to bin 0, the rest shift down by 3, capped at BIG_BIN |
| AllocBins.BinSize | src/alloc.c:189-193 | the bit length of size, one more unless size is a power of two, adjusted |
| AllocBins.PowerOfTwoTest | src/alloc.c:191 | `n & (n - 1)` is zero exactly for powers of two |
| AllocBins.SmallBinFits | src/alloc.c:189-193 | a request of 1..2048 bytes goes to the small bin whose cell is the least power of two at least max(size, 4) |
| AllocBins.BigRequestsBigBin | src/alloc.c:189-193 | every request over 2048 bytes goes to the big bin |
| AllocBins.BigGrowth | src/alloc.c:687-694 | the pages a big-bin miss takes, computed without wrap-around |
| AllocBins.BigBlockFits | src/alloc.c:687-694 | a fresh big block's usable size is above the request and at most a page over it, and header plus size fill whole pages |
| AllocBins.BigGrowthAsWritten | src/alloc.c:687-694 | whenever the growth fits in 32 bits, the u32 page count and header size equal the unbounded ones |
| AllocBins.BigPagesWrap | src/alloc.c:687-694 | a request within 48 bytes of 4 GiB gets one page whose header claims 4048 usable bytes; a request of 0xFFFFF000 gets 2^20 pages, whose byte count wraps to 0, and a header claiming 0xFFFFFFD0 bytes |
| SkipList.BigBins.FindBest | src/alloc.c:325-348 | the first level-0 node of size at least s, or NULL when none is that big; on the sorted list that is a best fit |
| SkipList.BestFit | src/alloc.c:325-348 | the found node is NULL exactly when every node is smaller, else a page-aligned big header no larger than any other node that is big enough |
| SkipList.BigBins.Walk | src/alloc.c:331-337 | the shared search from the list level down: each update[i] is the last node on level i smaller than s |
| SkipList.BigBins.Insert | src/alloc.c:353-423 | a value that is already first of its size on level 0 changes nothing; otherwise it is spliced in on every level up to the drawn one, which raises the list level; the list stays sorted and well formed and level 0 gains exactly value |
| SkipList.BigBins.Splice | src/alloc.c:416-421 | on every level up to height value takes over update[i]'s pointer and update[i] points at value |
| SkipList.SpliceChain | src/alloc.c:417-420 | splicing v in at position k makes the level thread its old nodes with v inserted |
| SkipList.SortedInsert | src/alloc.c:381-389 | inserting v at the first position of its size keeps each level sorted |
| SkipList.BigBins.DeleteAsWritten | src/alloc.c:429-492 | the source's delete: when value is not on the list, the level-0 walk reads through NULL, which the model reports as a fault |
| SkipList.SeekAsWritten | src/alloc.c:460-463 | the as-written walk follows level 0 until value; meeting NULL first is a fault |
| SkipList.BigBins.Delete | src/alloc.c:429-492 | value leaves every level and the list level drops to its highest non-empty level; a value not on the list leaves the list alone; the list stays sorted and well formed |
| SkipList.Seek | src/alloc.c:460-470 | the corrected walk stops at NULL: it answers whether value is on level 0 |
| SkipList.BigBins.Unlink | src/alloc.c:476-490 | from level 0 up, while update[i] points at value it is bent past value; then the level drops while the top is empty |
| SkipList.UnlinkChain | src/alloc.c:481 | unlinking the node at position k makes the level thread the nodes without it |
| SkipList.AbsentAbove | src/alloc.c:477-480 | where the unlinking loop stops, value is on no higher level |
| SkipList.WithoutMembers | src/alloc.c:476-491 | x is on the list after delete exactly when it was on before and is not value |
| Alloc.Allocator.ListInsert | src/alloc.c:263-266 | node goes in front of bin c's page list |
| Alloc.Allocator.ListDecouple | src/alloc.c:250-254 | the list of bin c starts at node's successor and node's next is cleared |
| Alloc.Allocator.StackPop | src/alloc.c:503-523 | the top cell is returned and the head moves to the word stored in it |
| Alloc.Allocator.StackPush | src/alloc.c:532-543 | ptr's first word takes the old head and ptr becomes the head |
| Alloc.Allocator.FormatPage | src/alloc.c:602-617 | the loop threads every cell of a fresh page of bin c in ascending order, the last one's word NULL; words of other pages are kept |
| AllocLayout.FormattedThreads | src/alloc.c:606-616 | the words the loop leaves thread the page's cells in ascending order |
| AllocLayout.CellsShape | src/alloc.c:602-616 | the cells of a fresh page are distinct cells of its bin, each inside the page past the header |
| Alloc.Allocator.Grow | src/kheap.c:22-39 | sbrk for the allocator: halts exactly when the break cannot grow by the increment below the heap's end or a page comes back NULL; otherwise the old break is returned and the new bytes are zero |
| Alloc.Allocator.NewPage | src/alloc.c:579-618 | small-bin miss: halts exactly when sbrk cannot grow the heap by a page; otherwise a zeroed page at the break becomes a page of bin c with every cell free, in front of the bin's list, and no pointer becomes live |
| Alloc.Allocator.TakeCell | src/alloc.c:619-623 | small-bin hit: the top cell is popped and becomes live, nothing else does; a page left empty is decoupled |
| Alloc.Allocator.TakeBlock | src/alloc.c:628-638 | big-bin hit: the block leaves the free blocks and the cell just past its header becomes live |
| Alloc.Allocator.NewBlock | src/alloc.c:687-709 | big-bin miss: halts exactly when sbrk cannot grow the heap by the block's pages; otherwise fresh pages at the break, room above the request and at most a page over it, the header's size being the source's u32 `pages * PAGE_SIZE - 48`, linked as the newest block and handed out at once |
| Alloc.Allocator.BestFree | src/alloc.c:628 | NULL exactly when no free block holds the request; otherwise the first of the smallest free blocks that do |
| Alloc.Allocator.Malloc | src/alloc.c:559-712 | size 0 gives NULL; halts exactly on a miss whose growth sbrk cannot give (an empty small bin and no page, or no free block big enough and no room for the block); otherwise a pointer that was not live becomes live with room for the request, nothing else changes liveness, and bytes below the old break are kept; small requests get a cell of the least fitting bin and leave the free blocks alone; a big request takes the first of the smallest free blocks that hold it, which leaves the free blocks, or else a new block at the old break, the free blocks unchanged (BlockTaken names that best fit through SkipList.At and Below, whose meaning SkipList.BestFit proves) |
| Alloc.Allocator.SmallMalloc | src/alloc.c:574-623 | the small-bin path: halts exactly when the bin's list is empty and sbrk cannot give a page; otherwise a cell of the bin becomes live; the free big blocks are untouched |
| Alloc.Allocator.BigMalloc | src/alloc.c:624-711 | the big-bin path: halts exactly when no free block holds the request and sbrk cannot give the block's pages; when a free block holds the request, the first of the smallest such blocks (as in Malloc's row) is taken off the free blocks and its cell becomes live; otherwise a new block at the old break, at most a page over the request, becomes live and the free blocks are unchanged |
| Alloc.Allocator.Free | src/alloc.c:715-851 | NULL and pointers without the magic word change nothing; freeing a live pointer makes exactly it not live; a page-aligned pointer moves back a byte first |
| Alloc.Allocator.GiveCell | src/alloc.c:843-849 | the cell is pushed on its page's stack and stops being live; a page that was full goes back in front of its list |
| Alloc.Allocator.GiveBlock | src/alloc.c:749-836 | the block's cell is pushed, the block joins the free blocks, and its data pointer stops being live |
| Alloc.Allocator.InsertBlock | src/alloc.c:836 | the block joins level 0 and the generator advances by the draws of its level |
| Alloc.Allocator.LiveFreeable | src/alloc.c:715-741 | a live pointer passes klfree's checks and is the pointer klfree releases |
| AllocLive.LiveApart | src/alloc.c:559-712 | two different live pointers own bytes that do not overlap |
| AllocLive.LiveInHeap | src/alloc.c:559-712 | a live pointer's bytes lie inside its header's extent, below the break |
| AllocSteps.TakeCellStep | src/alloc.c:619-623 | the pop and decouple keep every layout invariant |
| AllocSteps.NewPageStep | src/alloc.c:579-618 | the fresh small page keeps every layout invariant |
| AllocSteps.TakeBlockStep | src/alloc.c:628-638 | the big-bin hit keeps every layout invariant |
| AllocSteps.NewBlockStep | src/alloc.c:687-709 | the fresh big block keeps every layout invariant |
| AllocSteps.GiveCellStep | src/alloc.c:843-849 | freeing a cell keeps every layout invariant |
| AllocSteps.GiveBlockStep | src/alloc.c:831-836 | freeing a big block keeps every layout invariant |
| Alloc.VallocRequest | src/alloc.c:860 | size + 4048 when that fits in 32 bits; otherwise the wrapped sum, below 4048 |
| Alloc.VallocWraps | src/alloc.c:860 | size 0xFFFFFC18 asks klmalloc for 3048 bytes |
| Alloc.Allocator.Valloc | src/alloc.c:854-865 | as written: a page-aligned pointer 4048 bytes into a big block; halts whenever klmalloc of the sum would, and exactly then when the sum fits; for such sizes the page-aligned pointer has size bytes of room |
| Alloc.Allocator.VallocChecked | src/alloc.c:854-865 | a size whose sum leaves 32 bits gets NULL; otherwise as Valloc, halting exactly when klmalloc of the sum would |
| Alloc.Allocator.Realloc | src/alloc.c:868-943 | NULL acts as malloc, halting exactly when it would; size 0 frees and gives NULL; a pointer without magic halts; a block with room is kept; otherwise a new block gets a copy of the old room and the old one is freed, halting exactly when klmalloc of the size would |
| Alloc.Allocator.Resize | src/alloc.c:886-943 | a live pointer: a block with room for the size is kept as is; otherwise it is moved, halting exactly when klmalloc of the size would |
| Alloc.Allocator.Move | src/alloc.c:923-933 | halts exactly when klmalloc of the size would; otherwise a new block holds the n bytes of the old room, and the old pointer stops being live |
| Alloc.Allocator.CopyRoom | src/alloc.c:931 | the n bytes of src's room are copied to dst's |
| Alloc.CallocRequest | src/alloc.c:956 | nmemb * size when the product fits in 32 bits |
| Alloc.CallocWraps | src/alloc.c:956 | 65536 elements of 65537 bytes ask for 65536 bytes |
| Alloc.Allocator.Calloc | src/alloc.c:946-960 | as written: the wrapped product is allocated and zeroed, halting exactly when klmalloc of it would |
| Alloc.Allocator.CallocChecked | src/alloc.c:946-960 | a product past 32 bits gets NULL; otherwise a live pointer with the product's room, all zero, halting exactly when klmalloc of the product would |
| DescriptorTables.GlobalDescriptorDecodes | src/descriptor_tables.c:18-27 | the processor reads back the base, the low 20 bits of the limit, the access byte and the flag nibble that set_global_descriptor was given |
| DescriptorTables.DescriptorRoundTrip | src/descriptor_tables.h:6-13 | every descriptor is the packing of its own base, limit, access byte and granularity byte |
| DescriptorTables.DescriptorDetermined | src/descriptor_tables.c:18-27 | two descriptors that agree on what the processor reads are equal |
| DescriptorTables.InterruptGate | src/descriptor_tables.c:29-36 | the gate's handler address, selector and flags are the given ones, and the reserved byte is 0 |
| DescriptorTables.GateRoundTrip | src/descriptor_tables.h:22-28 | every gate with a zero reserved byte is the packing of its own handler, selector and flags |
| DescriptorTables.SetGlobalDescriptor | src/descriptor_tables.c:18-27 | entry i becomes GlobalDescriptor(base, limit, access, gran); no other entry changes |
| DescriptorTables.SetInterruptGate | src/descriptor_tables.c:29-36 | gate i becomes InterruptGate(base, selector, flags); no other gate changes |
| DescriptorTables.Tables.SetTaskDescriptor | src/descriptor_tables.c:38-47 | descriptor i becomes an available 32-bit TSS over tss_entry; the TSS is zero except ss0 and esp0 |
| DescriptorTables.TaskDescriptorMeaning | src/descriptor_tables.c:38-47 | that descriptor is a present TSS of type 9, DPL 3, at the TSS's base and exactly its size |
| DescriptorTables.Tables.SetKernelStackInTss | src/descriptor_tables.c:49-52 | esp0 becomes the stack; nothing else changes |
| DescriptorTables.Tables.InitGdt | src/descriptor_tables.c:54-98 | the table is KernelGdt and gdt_ptr covers its 20 entries at its linear address; the TSS holds only ss0 |
| DescriptorTables.KernelSegmentsRights | src/descriptor_tables.c:63-79 | entries 1 and 3 are readable code, 2 and 4 to 7 writable data; 3 and 4 are for ring 3, the others ring 0 |
| DescriptorTables.KernelSegmentsBases | src/descriptor_tables.c:63-79 | each descriptor starts at the base of the segment it is for |
| DescriptorTables.KernelSegmentsGranularity | src/descriptor_tables.c:63-79 | every segment is 32-bit, and all but the video segment count their limit in pages |
| DescriptorTables.GateSelectorIsKernelCode | src/descriptor_tables.c:100-176 | selector 0x08 names ring-0 code and 0x10 ring-0 data in the table init_gdt builds |
| DescriptorTables.Tables.InitIdt | src/descriptor_tables.c:100-176 | the table is KernelIdt and idt_ptr covers its 256 gates at its linear address |
| DescriptorTables.KernelIdtMeaning | src/descriptor_tables.c:100-176 | vectors 0..47 are present ring-0 interrupt gates into kernel code, 128 is a ring-3 gate to the system-call stub, the rest are empty |
| Paging.EntryRoundTrip | src/paging.h:7-18 | decoding an entry's 32-bit word gives the entry back |
| Paging.WordRoundTrip | src/paging.h:7-18 | every 32-bit word is the word of the entry it holds |
| Paging.FrameAddress | src/paging.c:171-185 | `value & 0xFFFFF000` of an entry's word is its frame's address |
| Paging.SetPtEntry | src/paging.c:30-43 | present, rw and user as given, write-through and cache-disable set, other flags clear, and the frame that holds address |
| Paging.SplitRecombines | src/paging.c:45-82 | the directory index times 4 MiB plus the table index times 4 KiB is the address rounded down to a page |
| Paging.SplitDetermines | src/paging.c:45-82 | two addresses with the same indexes lie in the same page |
| Paging.WindowIndex | src/paging.c:204-207 | the first 4 MiB boundary at or above the top of the kernel data |
| Paging.PageDirectory.constructor | src/paging.c:195-216 | a zeroed directory whose window of page tables holds its own table, mapped to itself |
| Paging.PageDirectory.GetPtEntry | src/paging.c:45-82 | the slot of the entry for virt; a missing table is created from the given page only when asked, and then only the window page that maps it changes translation |
| Paging.PageDirectory.Mmap | src/paging.c:84-95 | the page of virt translates to the frame of phys with the given bits; only that page and, if a table was created, one window page change translation |
| Paging.PageDirectory.Munmap | src/paging.c:97-107 | TRUE exactly when the page has a table; then its entry is cleared and it no longer translates; only that page changes |
| Paging.FaultCode | src/paging.c:113-120 | the switch code, a number below 8 |
| Paging.Report | src/paging.c:113-147 | the report the error code means: user from bit 2, write from bit 1, protection fault from bit 0 |
| Paging.ReportSwapped | src/paging.c:113-147 | the handler as written gets user and write right and always swaps protection fault with non-present page |
| Paging.NonPresentReadMisreported | src/paging.c:123-128 | error code 0 selects case 0x1, a protection fault, where it means case 0x0 |
| Loader.GetBiggestMemoryChunk | src/loader.c:53-72 | the walk visits the memory-map entries in order and returns the entry Scan chooses, or None |
| Loader.Walk | src/loader.c:59-69 | each visited entry is size + 4 bytes past the last, inside the map |
| Loader.ScanMeaning | src/loader.c:59-69 | the chosen entry is available, its running total is not mem_upper*1000, it is longer than every such entry before it and at least as long as every one after it; None exactly when all of them are empty |
| Loader.PageUp32Meaning | src/loader.c:81-82 | rounding up to a page: x when aligned, else the next page boundary, 0 at the top of the address space |
| Loader.PlaceMeaning | src/loader.c:90-96 | the data segment starts at the larger of the chunk's address and the minimal load address, and ends where the chunk does |
| Loader.SplitMeaning | src/loader.c:97-101 | the data segment is whole pages holding at least half the length; the code segment gets the rest |
| Loader.BootLoader.InitSegmentsParameters | src/loader.c:74-102 | the module segment when flag 3 is set; data and code laid out in the chunk above the module's end or the kernel image |
| Loader.BootLoader.PlaceSegments | src/loader.c:85-102 | data and code placed in the chunk above minLoad; the module fields are unchanged |
| Loader.BootLoader.LoaderMain | src/loader.c:36-51 | nothing happens unless flag 6 is set and the magic is right; then the walk's chosen chunk is used: the module segment is recorded when flag 3 is set and kept otherwise, and the data and code segments are laid out in the chunk above the module or the kernel, as InitSegmentsParameters states |
| KernelModule.AcceptsIffFits | src/module.c:24-46 | the header check accepts exactly the headers whose code and data lie in the module and whose code, data and entry point fit the load windows |
| KernelModule.AsWrittenCodeFits | src/module.c:31-46 | the as-written check already keeps the code range from wrapping around |
| KernelModule.DataWrapAccepted | src/module.c:33 | a data range at 0xFFFFF000 of 0x2000 bytes passes the as-written check |
| KernelModule.ModuleInfo.InitModule | src/module.c:17-62 | as written: an initialised module is kept; otherwise a header that passes the u32 checks is recorded, not running, and TRUE returned, and its code and entry point fit the load windows; a rejected one changes nothing and gives FALSE |
| KernelModule.ModuleInfo.InitModuleChecked | src/module.c:17-62 | with the data end checked without wrap-around: exactly the headers whose code and data fit are recorded |
| KernelModule.AllocModuleDataPage | src/module.c:65-69 | always NULL |
| KernelModule.FreeModuleDataPage | src/module.c:71-75 | always FALSE |
| KernelModule.FreeModuleAllocedPages | src/module.c:77-81 | always FALSE |
| Keyboard.KeyToAsciiNonZero | src/keyboard.c:32-51 | a key gives a character exactly when it is Enter, Space, Backspace, '.', '/', a digit or a letter key |
| Keyboard.DigitKeys | src/keyboard.c:30-41 | keys 0x02..0x0A type 1..9 and 0x0B types 0 |
| Keyboard.AsWrittenAgrees | src/keyboard.c:42-43 | as written and corrected agree on every key but 0x1A (a NUL) and 0x1B (the byte past the literal) |
| Keyboard.KeyCache.Callback | src/keyboard.c:53-61 | with the lock and fewer than 255 waiting, keyboard_to_ascii's character as written is appended, which is the corrected table's for every key but 0x1A and 0x1B; otherwise nothing changes |
| Keyboard.KeyCache.GetKey | src/keyboard.c:70-84 | 0 when empty; otherwise the oldest character is returned and removed, the rest kept in order |
| KTerminal.CText | src/kterminal.c:49-58 | the C string at the start of the buffer: the bytes before the first NUL |
| KTerminal.CTextOfLine | src/kterminal.c:49-58 | a buffer whose typed bytes hold no NUL, followed by NULs, holds exactly those bytes as its string |
| KTerminal.Terminal.AddChar | src/kterminal.c:29-35 | c is appended unless the buffer is full or c is a newline or carriage return |
| KTerminal.Terminal.ClearBuf | src/kterminal.c:37-41 | the typed bytes are zeroed, so the whole buffer is NUL and the line is empty |
| KTerminal.Terminal.RunCmd | src/kterminal.c:49-58 | the command named by the buffer's string; for a line without NULs that is the line typed |
| KTerminal.Terminal.Feed | src/kterminal.c:9-27 | one turn: NUL does nothing, other bytes are added, a newline runs the line as a command and empties the buffer |

## Left out

- The locking wrappers malloc, realloc, calloc, valloc and free (src/alloc.c:132-165) are modelled as the unlocked calls; the mutex is not modelled. klrealloc calls the locking malloc and free while it holds the lock, which would deadlock on a real mutex; the model does not capture that.
- The `#if 0` block splitting and coalescing code in klmalloc and klfree (src/alloc.c:639-681, 760-795, 799-827) is not compiled, so it is not modelled.
- Port I/O (outb, inb), printf, the screen, the PIC remap, lgdt, lidt, the segment reloads and the jump into the kernel are hardware effects and are left out. init_gdt, copy_data_and_code and goto_kernel of the loader (src/loader.c:104-151) are left out for the same reason.
- Paging.PageDirectory.GetPtEntry: is_paging_enabled and switch_page_directory read and write CR0 and CR3; both of get_pt_entry's branches reach the same table, so the model has one branch. alloc_data_page's result is a parameter, and its NULL case is not checked, as in the source.
- map_kernel_pages, print_page_info and init_paging (src/paging.c:160-193, 218-256) are loops of mmap calls and printing; only mmap itself is modelled. The page-fault handler's exit_module, its mapping of a fresh page and its ASSERT are left out; only the decoding of the error code is modelled.
- Loader.BootLoader.LoaderMain: when no chunk qualifies the source goes on and reads through NULL; the model stops there.
- Loader.GetBiggestMemoryChunk requires NoWrap: for every address below the map's end, not only the entries the walk visits, that address plus the entry's size field plus 4 stays below 2^32. The memory reader is a parameter, so this bounds the map's contents as the model reads them, not which maps exist. Loader.ScanMeaning assumes every entry's length fits in 32 bits; the source's lengths are 64-bit.
- Loader.BootLoader.InitSegmentsParameters takes the module's start and end words as parameters instead of reading them from mods_addr.
- KernelModule.ModuleInfo.InitModule takes the header words as a parameter instead of reading them through %fs. Its checks are the source's u32 ones; the data end's wrap-around is the finding below.
- Keyboard.KeyCache.Callback takes the scan code read from port 0x60 and the result of the mutex trylock as parameters, and the byte after the "qwertyuiop" literal as past.
- Keyboard.KeyCache.GetKey is one atomic step: the mutex_lock it takes, and the test of key_loc it makes before taking the lock, are not modelled, so no interleaving with Callback is captured.
- Keyboard.KeyToAsciiAsWritten takes the byte stored after the "qwertyuiop" literal as the parameter past, since the compiler decides it.
- KTerminal.Terminal.Feed models one turn of start_terminal's endless loop; the loop itself and the screen output are left out.
- The counter in get_biggest_memory_chunk is never read, so it is not modelled.
- KHeap.KernelHeap.Sbrk and Alloc.Allocator.Grow take the pages alloc_data_page hands out as a sequence parameter. Grow takes the increment in full, so it cannot wrap around the way the source's `heap_brk + increment` can.
- Alloc.Allocator.NewBlock computes the pages of a big-bin miss without wrap-around (AllocBins.BigGrowth), so it halts for requests from 0xFFFFEFD0 up, where the source goes on. For 0xFFFFEFD0..0xFFFFFFCF the source's `PAGE_SIZE * pages` wraps to 0: it calls sbrk(0) and writes a header claiming 0xFFFFFFD0 bytes at the unmoved break. For 0xFFFFFFD0..0xFFFFFFFF it takes one page whose header claims 4048 bytes. AllocBins.BigPagesWrap states both; the third Findings row below is this. Below those bands the growth fits and the model's block is the source's (AllocBins.BigGrowthAsWritten).
- Alloc.Allocator.Malloc inherits that from NewBlock: for big requests from 0xFFFFEFD0 up it halts when there is no best fit, where the source hands out a block too small for the request.
- Alloc.Allocator.BigMalloc is where Malloc takes that halt: it halts exactly when GrowFails(BigGrowth(request)) with no best fit, and BigGrowth is the growth without wrap-around, so from 0xFFFFEFD0 up it halts where the source hands out a block too small for the request.
- Alloc.Allocator.NewPage, Alloc.Allocator.Free and Alloc.Allocator.Malloc keep the allocator's metadata (bin and block headers, the free-cell links, the skip list's pointers) in maps of their own, apart from the bytes of `heap.mem`. In the source a free cell's first word is its stack link and a header sits in the heap's bytes. In the model a fresh cell therefore reads as zero where the source holds the next cell's address, and a write past a pointer's room cannot corrupt a header or a link.
- KHeap.KernelHeap.Sbrk requires `brk + increment < 2^32`: its wrap-around is not modelled. Every caller grows the heap below its end, which lies below 2^32.
- KHeap.KernelHeap.InitHeap follows the u32 arithmetic, but Valid(), the heap invariant that Sbrk needs, holds only when start + size stays below 2^32 and inside the modelled memory.
- Common.Strcpy requires that dst does not lie inside (src, src + length]; Common.Strncpy that it does not lie inside (src, src + n). The forward loops reread bytes they have already written there, which the model does not capture. A dst at or below src is modelled.
- Common.Strncpy requires src + n inside the memory, n readable bytes, although the loop stops reading at the NUL.
- MemoryManager.MemoryManager.InitMemoryBitmap and MemoryManager.MemoryManager.InitMemoryManager stop, changing nothing, when a set_bit of init_memory_bitmap would land past the pages reserved for its bitmap (Overrun). That covers a data segment shorter than a page, whose stack bit is 0xFFFFFFFF, used data pages past the data bitmap, and kernel code pages past the bitmap they are marked in. The source writes those bits into whatever memory lies there; that memory is not modelled. Both also require data_top plus the two bitmaps to stay below 2^32, so the wrap of data_top is not modelled. A code segment shorter than a page is modelled: both bitmaps are then one array, and alloc_data_page and free_data_page see size code_size, 0.
- Common.Memcpy requires that dst does not lie inside (src, src + n). For such a forward overlap, the source's byte loop rereads bytes it has already written and repeats them (smearing); the model does not capture that. Common.Memmove handles overlap.
- Paging.PageDirectory.constructor requires the data's top, dirAddr + 8192 + base, to lie below the last 4 MiB of the address space. So the sum at src/paging.c:204 cannot wrap, and the window of page tables is never the last directory entry.
- KernelModule.ModuleInfo.InitModule: the u32 sums of the checks are written out, but the entry-point and code-window bounds it ensures are stated on unbounded integers, which the code check proves cannot wrap (KernelModule.AsWrittenCodeFits).
- SkipRand.RandomLevel and the generator are modelled over 32-bit words; the level draw inside klmalloc_skip_list_insert is modelled by the draws of the generator's state.

## Findings

| source | as written | input that shows it | evidently intended | confidence | as-written member | corrected member |
|---|---|---|---|---|---|---|
| src/alloc.c:860 | `size + PAGE_SIZE - sizeof(header)` wraps in 32 bits | size 0xFFFFFC18 asks klmalloc for 3048 bytes | a size that cannot be served gets NULL | not executed | Alloc.VallocWraps | Alloc.Allocator.VallocChecked |
| src/alloc.c:956 | `nmemb * size` wraps in 32 bits | 65536 elements of 65537 bytes ask for 65536 bytes | an overflowing product gets NULL | not executed | Alloc.CallocWraps | Alloc.Allocator.CallocChecked |
| src/alloc.c:687-694 | `size + sizeof(header)` and `PAGE_SIZE * pages` wrap for sizes near 4 GiB | size 0xFFFFFFF0 takes one page whose header claims 4048 bytes; size 0xFFFFF000 calls sbrk(0) and writes a header claiming 0xFFFFFFD0 bytes at the unmoved break | the block holds the request | not executed | AllocBins.BigPagesWrap | AllocBins.BigBlockFits |
| src/kbitmap.c:30-46 | searches whole bytes, so padding bits past size count as free | bitmap [0x01] of one used page gives 1 | NOT_FOUND when every page is used | not executed | KBitmap.PaddingBitReported | KBitmap.FirstClearBitBelow |
| src/common.c:90 | `*byte1 == *byte2` is tested before `n > 0` | two equal ranges of n bytes: the pair at offset n is read | read only the n bytes | not executed | Common.MemcmpReadsPastEnd | Common.MemcmpBoundedReadsWithin |
| src/alloc.c:461-463 | the level-0 walk follows value's chain without a NULL test | deleting a value that is not on the list reads through NULL | a value not on the list is left alone, as the fallback at 465-471 intends | not executed | SkipList.SeekAsWritten | SkipList.BigBins.Delete |
| src/keyboard.c:42-43 | the top row is indexed for every code 0x10..0x1C | key 0x1A gives NUL, key 0x1B reads the byte after the literal | only the ten letters 0x10..0x19 are translated | not executed | Keyboard.AsWrittenAgrees | Keyboard.KeyToAsciiNonZero |
| src/paging.c:113 | `present` is 1 when error-code bit 0 is clear | error code 0, a kernel read of a non-present page, is called a protection fault | bit 0 set means protection fault | not executed | Paging.NonPresentReadMisreported | Paging.Report |
| src/module.c:33 | `data_offset + data_size` wraps before the bound check | data at 0xFFFFF000 of 0x2000 bytes in a two-page module is accepted | the data lies inside the module | not executed | KernelModule.DataWrapAccepted | KernelModule.AcceptsIffFits |
