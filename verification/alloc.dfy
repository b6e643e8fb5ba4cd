// The slab allocator of src/alloc.c (Kevin Lange's klmalloc) on top of the kernel heap: the
// page lists of the small bins, the free-cell stacks inside pages and big blocks, the skip list
// of free big blocks, the physical chain of big blocks and the five entry points.
//
// The words the allocator keeps in memory (the header fields of every page and big block and
// the first word of every free cell) are kept in maps from address to word; the bytes the
// callers of malloc own are the heap's memory array.
module Alloc {
  import opened Types
  import opened AllocBins
  import opened AllocLayout
  import opened AllocSteps
  import opened AllocLive
  import KHeap
  import SkipList
  import SkipRand
  import Common

  // ---- The allocator ----

  class Allocator {
    /** klmalloc_bin_head[c].first: the first page of small bin c with a free cell. */
    var first: seq<u32>
    /** The next, head, size, bin_magic and prev fields of the header at every address. */
    var next: map<u32, u32>
    var head: map<u32, u32>
    var size: map<u32, u32>
    var magic: map<u32, u32>
    var prev: map<u32, u32>
    /** The first word of every free cell: the next cell of its stack. */
    var link: map<u32, u32>
    /** klmalloc_newest_big: the big block created last. */
    var newest: u32
    /** The heap sbrk grows, the skip list klmalloc_big_bins and the generator of its levels. */
    const heap: KHeap.KernelHeap
    const bins: SkipList.BigBins
    const rng: SkipRand.Xor128

    /** The free cells of every header in stack order. */
    ghost var stacks: map<u32, seq<u32>>
    /** The pages of every small bin's list in list order. */
    ghost var pages: seq<seq<u32>>
    /** Every big block, newest first. */
    ghost var chain: seq<u32>
    /**
     * How deep Valid seals the layout and the skip list's invariant. Its value is unknown to the
     * methods, so their proofs carry both as single facts and the step lemmas open them.
     */
    ghost const depth: nat

    ghost predicate Valid()
      reads this, heap, bins
    {
      && heap.Valid() && 0 < heap.start <= heap.brk && heap.brk % PAGE_SIZE == 0
      && |first| == SMALL_BINS && |pages| == SMALL_BINS && |bins.levels| == SkipList.LEVELS && depth >= 3
      && (forall j :: 0 <= j < |bins.levels[0]| ==> bins.levels[0][j] in size)
      && SkipList.Sealed(depth, size, bins.forward, bins.level, bins.levels, bins.rank, bins.low)
      && Sealed(depth, heap.start as nat, heap.brk as nat, size, magic, head, next, link, first, prev, newest,
                stacks, pages, chain, bins.forward, bins.levels[0])
    }

    /** ptr is a pointer malloc returned that free has not taken back. */
    ghost predicate Allocated(ptr: u32)
      reads this
    {
      Live(size, stacks, ptr)
    }

    /** The free big blocks: level 0 of the skip list. */
    ghost function FreeBlocks(): seq<u32>
      reads this, bins
      requires |bins.levels| > 0
    {
      bins.levels[0]
    }

    /** The zero-initialised globals over an initialised heap: no pages, no big blocks. */
    constructor (kheap: KHeap.KernelHeap)
      requires kheap.Valid() && kheap.brk % PAGE_SIZE == 0 && 0 < kheap.start <= kheap.brk
      ensures heap == kheap && Valid()
      ensures first == [NULL, NULL, NULL, NULL, NULL, NULL, NULL, NULL, NULL, NULL] && newest == NULL
      ensures size == map[] && stacks == map[] && pages == [[], [], [], [], [], [], [], [], [], []] && chain == []
      ensures bins.levels == [[], [], [], [], [], [], []] && rng.Get() == SkipRand.SEED
    {
      heap := kheap;
      bins := new SkipList.BigBins();
      rng := new SkipRand.Xor128();
      first := [NULL, NULL, NULL, NULL, NULL, NULL, NULL, NULL, NULL, NULL];
      next, head, size, magic, prev, link := map[], map[], map[], map[], map[], map[];
      newest := NULL;
      stacks := map[];
      pages := [[], [], [], [], [], [], [], [], [], []];
      chain := [];
      depth := 3;
      new;
      SkipList.Close(depth, size, bins.forward, bins.level, bins.levels, bins.rank, bins.low);
      Close(depth, heap.start as nat, heap.brk as nat, size, magic, head, next, link, first, prev, newest,
            stacks, pages, chain, bins.forward, bins.levels[0]);
    }

    /** klmalloc_list_head */
    function ListHead(c: nat): u32
      requires c < |first|
      reads this
    {
      first[c]
    }

    /** klmalloc_list_insert: node goes in front of the page list of bin c. */
    method ListInsert(c: nat, node: u32)
      requires c < |first|
      modifies this`first, this`next
      ensures next == old(next)[node := old(first[c])] && first == old(first)[c := node]
    {
      next := next[node := first[c]];
      first := first[c := node];
    }

    /**
     * klmalloc_list_decouple: the list of bin c starts at node's successor and node's next is
     * cleared. Whatever node's place in the list, the list head moves; malloc only decouples
     * the head page.
     */
    method ListDecouple(c: nat, node: u32)
      requires c < |first| && node in next
      modifies this`first, this`next
      ensures first == old(first)[c := old(next[node])] && next == old(next)[node := NULL]
    {
      var nxt := next[node];
      first := first[c := nxt];
      next := next[node := NULL];
    }

    /** klmalloc_stack_empty */
    predicate StackEmpty(h: u32)
      requires h in head
      reads this
    {
      head[h] == NULL
    }

    /**
     * klmalloc_stack_pop: the ASSERTs are the requires; the top cell is returned and the head
     * moves to the word stored in it.
     */
    method StackPop(h: u32) returns (item: u32)
      requires h != NULL && h in head && h in size
      requires head[h] != NULL && head[h] > h
      requires size[h] > NUM_BINS ==> head[h] < h + size[h]
      requires size[h] <= NUM_BINS ==> h + SMALL_HEADER <= head[h] < h + PAGE_SIZE
      requires head[h] in link
      modifies this`head
      ensures item == old(head[h]) && head == old(head)[h := link[item]]
    {
      item := head[h];
      head := head[h := link[item]];
    }

    /** klmalloc_stack_push: the ASSERTs are the requires; ptr's first word takes the old head. */
    method StackPush(h: u32, ptr: u32)
      requires h in head && h in size
      requires ptr != NULL && ptr > h
      requires size[h] > NUM_BINS ==> ptr < h + size[h]
      requires size[h] <= NUM_BINS ==> ptr < h + PAGE_SIZE
      modifies this`link, this`head
      ensures link == old(link)[ptr := old(head[h])] && head == old(head)[h := ptr]
    {
      link := link[ptr := head[h]];
      head := head[h := ptr];
    }

    /**
     * The loop of klmalloc that formats a fresh small page of bin c at h: word i << c past the
     * header (byte i * 2^(2+c)) points at word (i + 1) << c, for every cell but the last, whose
     * word is NULL. The cells end up threaded in ascending order; no other page's words change.
     */
    method FormatPage(h: u32, c: nat)
      requires c < BIG_BIN && h % PAGE_SIZE == 0 && h + PAGE_SIZE <= U32_LIMIT
      modifies this`link
      ensures Threads(h + SMALL_HEADER, link, Cells(h, c))
      ensures forall x :: x in old(link) && HeaderOf(x) != h ==> x in link && link[x] == old(link)[x]
    {
      link := Formatted(link, h, c);
    }
    /**
     * sbrk halts on a growth by bytes: the new break would not lie below the heap's end, or the
     * page source hands out NULL for one of the new pages.
     */
    ghost predicate GrowFails(bytes: nat, frames: seq<u32>)
      reads heap
      requires bytes / PAGE_SIZE <= |frames|
    {
      || !(heap.brk as nat + bytes < heap.start as nat + heap.size as nat)
      || KHeap.FirstNull(frames[..bytes / PAGE_SIZE]) < bytes / PAGE_SIZE
    }

    /**
     * sbrk with the increment taken in full: an increment that does not fit below the heap's
     * end halts, as sbrk does; unlike the source's u32 arithmetic it cannot wrap around first.
     */
    method Grow(increment: nat, frames: seq<u32>) returns (r: u32, halted: bool)
      requires heap.Valid() && heap.brk % PAGE_SIZE == 0 && increment % PAGE_SIZE == 0
      requires increment / PAGE_SIZE <= |frames|
      modifies heap, heap.mem
      ensures heap.start == old(heap.start) && heap.size == old(heap.size) && heap.mem == old(heap.mem)
      ensures heap.Valid() && heap.brk % PAGE_SIZE == 0
      ensures halted <==> old(GrowFails(increment, frames))
      ensures halted ==> heap.brk == old(heap.brk) && heap.mem[..] == old(heap.mem[..])
      ensures !halted ==> r == old(heap.brk) && heap.brk as nat == r as nat + increment
      ensures !halted ==> heap.mem[..] == old(heap.mem[..r]) + Common.Fill(0, increment) + old(heap.mem[r as nat + increment..])
    {
      if heap.brk as nat + increment >= heap.start as nat + heap.size as nat {
        return 0, true;
      }
      r, halted := heap.Sbrk(increment as u32, frames);
    }

    /**
     * klmalloc's small-bin miss: a fresh page at the break, magic and head set, put in front of
     * bin c's list, formatted and given its bin. Every cell of it is free.
     */
    method NewPage(c: nat, frames: seq<u32>) returns (h: u32, halted: bool)
      requires Valid() && c < SMALL_BINS && |frames| >= 1
      modifies this, heap, heap.mem
      ensures Valid()
      ensures heap.start == old(heap.start) && heap.size == old(heap.size) && heap.mem == old(heap.mem)
      ensures halted <==> old(GrowFails(PAGE_SIZE, frames))
      ensures halted ==> unchanged(this) && heap.brk == old(heap.brk) && heap.mem[..] == old(heap.mem[..])
      ensures !halted ==> h == old(heap.brk) && heap.brk as nat == h as nat + PAGE_SIZE
      ensures !halted ==> heap.mem[..] == old(heap.mem[..h]) + Common.Fill(0, PAGE_SIZE) + old(heap.mem[h as nat + PAGE_SIZE..])
      ensures !halted ==> first == old(first)[c := h] && h !in old(size) && size == old(size)[h := c as u32]
      ensures !halted ==> stacks == old(stacks)[h := Cells(h, c)] && pages == old(pages)[c := [h] + old(pages)[c]]
      ensures !halted ==> chain == old(chain) && forall q :: Allocated(q) <==> old(Allocated(q))
    {
      h, halted := Grow(PAGE_SIZE, frames);
      if halted {
        return;
      }
      FreshPage(c, h);
      NewPageStep(depth, old(heap.start) as nat, old(heap.brk) as nat, old(size), old(magic), old(head), old(next), old(link),
                  old(first), prev, newest, old(stacks), old(pages), chain, bins.forward, bins.levels[0], c, h, link);
      SkipList.ShapeGrown(depth, old(size), size, bins.forward, bins.level, bins.levels, bins.rank, bins.low);
    }

    /**
     * The words of a fresh small page h of bin c: magic, the head at the first cell, the page
     * in front of the bin's list and every cell formatted onto its stack.
     */
    method FreshPage(c: nat, h: u32)
      requires c < SMALL_BINS && |first| == SMALL_BINS && |pages| == SMALL_BINS
      requires h % PAGE_SIZE == 0 && h + PAGE_SIZE <= U32_LIMIT
      modifies this`magic, this`head, this`first, this`next, this`link, this`size, this`stacks, this`pages
      ensures magic == old(magic)[h := BIN_MAGIC] && head == old(head)[h := h + SMALL_HEADER]
      ensures first == old(first)[c := h] && next == old(next)[h := old(first[c])]
      ensures size == old(size)[h := c as u32] && stacks == old(stacks)[h := Cells(h, c)]
      ensures pages == old(pages)[c := [h] + old(pages)[c]]
      ensures Threads(h + SMALL_HEADER, link, Cells(h, c))
      ensures forall x :: x in old(link) && HeaderOf(x) != h ==> x in link && link[x] == old(link)[x]
    {
      magic := magic[h := BIN_MAGIC];
      head := head[h := h + SMALL_HEADER];
      ListInsert(c, h);
      FormatPage(h, c);
      size := size[h := c as u32];
      stacks := stacks[h := Cells(h, c)];
      pages := pages[c := [h] + pages[c]];
    }

    /**
     * klmalloc's small-bin hit on the first page of bin c: the top cell is popped, and a page
     * left without free cells is decoupled from the list.
     */
    method TakeCell(c: nat) returns (item: u32)
      requires Valid() && c < SMALL_BINS && first[c] != NULL
      modifies this
      ensures Valid()
      ensures var h := old(first[c]);
        && h in old(stacks) && old(stacks[h]) != [] && item == old(stacks[h][0])
        && stacks == old(stacks)[h := old(stacks[h][1..])] && HeaderOf(item) == h && h in size && size[h] as nat == c
      ensures size == old(size) && chain == old(chain)
      ensures !old(Allocated(item)) && forall q :: Allocated(q) <==> old(Allocated(q)) || q == item
    {
      var h := first[c];
      TopCell(depth, heap.start as nat, heap.brk as nat, size, magic, head, next, link, first, prev, newest,
              stacks, pages, chain, bins.forward, bins.levels[0], c);
      item := StackPop(h);
      stacks := stacks[h := stacks[h][1..]];
      if StackEmpty(h) {
        ListDecouple(c, h);
        pages := pages[c := pages[c][1..]];
      }
      TakeCellStep(depth, heap.start as nat, heap.brk as nat, size, magic, old(head), old(next), link, old(first), prev, newest,
                   old(stacks), old(pages), chain, bins.forward, bins.levels[0], c, head, next, first, stacks, pages);
    }

    /** klmalloc's big-bin hit on the free block h findbest chose: off the skip list, cell popped. */
    method TakeBlock(h: u32) returns (item: u32)
      requires Valid() && h in FreeBlocks() && SkipList.IsFirst(size, bins.levels, h)
      modifies this, bins
      ensures Valid()
      ensures item as nat == h as nat + BIG_HEADER && HeaderOf(item) == h && stacks == old(stacks)[h := []]
      ensures size == old(size) && chain == old(chain) && FreeBlocks() == SkipList.Without(old(FreeBlocks()), h)
      ensures !old(Allocated(item)) && forall q :: Allocated(q) <==> old(Allocated(q)) || q == item
    {
      FreeBlock(depth, heap.start as nat, heap.brk as nat, size, magic, head, next, link, first, prev, newest,
                stacks, pages, chain, bins.forward, bins.levels[0], h);
      Unbin(h);
      item := StackPop(h);
      stacks := stacks[h := []];
      TakeBlockStep(depth, heap.start as nat, heap.brk as nat, size, magic, old(head), next, link, first, prev, newest,
                    old(stacks), pages, chain, old(bins.forward), old(bins.levels[0]), h, bins.forward, bins.levels[0]);
    }

    /** The skip-list delete of TakeBlock: h leaves every level, the list stays sealed. */
    method Unbin(h: u32)
      requires Valid() && h in FreeBlocks() && SkipList.IsFirst(size, bins.levels, h)
      modifies bins
      ensures |bins.levels| == SkipList.LEVELS && bins.levels[0] == SkipList.Without(old(bins.levels[0]), h)
      ensures forall x :: x in bins.levels[0] <==> x in old(bins.levels[0]) && x != h
      ensures forall j :: 0 <= j < |bins.levels[0]| ==> bins.levels[0][j] in size
      ensures SkipList.Sealed(depth, size, bins.forward, bins.level, bins.levels, bins.rank, bins.low)
      ensures SkipList.Kept(old(bins.forward), bins.forward)
    {
      FreeBlock(depth, heap.start as nat, heap.brk as nat, size, magic, head, next, link, first, prev, newest,
                stacks, pages, chain, bins.forward, bins.levels[0], h);
      SkipList.Open(depth, size, bins.forward, bins.level, bins.levels, bins.rank, bins.low);
      bins.Delete(size, h);
      SkipList.Close(depth, size, bins.forward, bins.level, bins.levels, bins.rank, bins.low);
      forall x
        ensures x in bins.levels[0] <==> x in old(bins.levels[0]) && x != h
      {
        SkipList.WithoutMembers(old(bins.levels[0]), h, x);
      }
    }

    /**
     * klmalloc's big-bin miss: (request + 48) / PAGE_SIZE + 1 fresh pages at the break, the
     * usable rest stored as the size, linked in as the newest block of the physical chain and
     * handed out at once. Its forward pointers are the zeroed words sbrk gave it.
     */
    method NewBlock(request: u32, frames: seq<u32>) returns (item: u32, halted: bool)
      requires Valid() && |frames| > (request as nat + BIG_HEADER) / PAGE_SIZE
      modifies this, heap, heap.mem, bins
      ensures Valid()
      ensures heap.start == old(heap.start) && heap.size == old(heap.size) && heap.mem == old(heap.mem)
      ensures halted <==> old(GrowFails(BigGrowth(request), frames))
      ensures halted ==> unchanged(this, bins) && heap.brk == old(heap.brk) && heap.mem[..] == old(heap.mem[..])
      ensures !halted ==> var h := old(heap.brk);
        && item as nat == h as nat + BIG_HEADER && HeaderOf(item) == h && h !in old(size) && h in size
        && size == old(size)[h := size[h]] && stacks == old(stacks)[h := []] && chain == [h] + old(chain)
        && heap.brk as nat == item as nat + Room(size, item)
        && heap.mem[..] == old(heap.mem[..])[..h] + Common.Fill(0, heap.brk as nat - h as nat) + old(heap.mem[..])[heap.brk..]
        && FreeBlocks() == old(FreeBlocks())
      ensures !halted ==> request < Room(size, item) <= request as nat + PAGE_SIZE
      ensures !halted ==> size[HeaderOf(item)] == BigBlockSize(request)
      ensures !halted ==> !old(Allocated(item)) && forall q :: Allocated(q) <==> old(Allocated(q)) || q == item
    {
      var bytes := BigGrowth(request);
      var h;
      h, halted := Grow(bytes, frames);
      if halted {
        return NULL, true;
      }
      var v := (bytes - BIG_HEADER) as u32;
      BigGrowthAsWritten(request);
      NewBlockStep(depth, heap.start as nat, h as nat, size, magic, head, next, link, first, prev, newest,
                   stacks, pages, chain, bins.forward, bins.levels[0], h, v);
      SkipList.ShapeGrown(depth, size, size[h := v], bins.forward, bins.level, bins.levels, bins.rank, bins.low);
      LinkBlock(h, v);
      RegisterBlock(h);
      item := h + BIG_HEADER as u32;
    }

    /**
     * The header words of the fresh big block h of v usable bytes: magic, size, an empty stack,
     * and its place as the newest block of the physical chain, after the block that was newest.
     */
    method LinkBlock(h: u32, v: u32)
      modifies this`magic, this`size, this`head, this`prev, this`next, this`newest, this`stacks, this`chain
      ensures magic == old(magic)[h := BIN_MAGIC] && size == old(size)[h := v] && head == old(head)[h := NULL]
      ensures prev == old(prev)[h := old(newest)] && newest == h && stacks == old(stacks)[h := []] && chain == [h] + old(chain)
      ensures next == (if old(newest) != NULL then old(next)[old(newest) := h] else old(next))[h := NULL]
    {
      magic, size, head, prev := magic[h := BIN_MAGIC], size[h := v], head[h := NULL], prev[h := newest];
      if newest != NULL {
        next := next[newest := h];
      }
      next := next[h := NULL];
      newest, stacks, chain := h, stacks[h := []], [h] + chain;
    }

    /** The fresh block h gets the zeroed forward pointers of new memory; the skip list stays well formed. */
    method RegisterBlock(h: u32)
      requires SkipList.Sealed(depth, size, bins.forward, bins.level, bins.levels, bins.rank, bins.low)
      requires h % PAGE_SIZE == 0 && |bins.levels| > 0 && h !in bins.levels[0]
      modifies bins
      ensures SkipList.Sealed(depth, size, bins.forward, bins.level, bins.levels, bins.rank, bins.low)
      ensures bins.forward == old(bins.forward)[h := SkipList.Nulls()]
      ensures bins.level == old(bins.level) && bins.levels == old(bins.levels)
    {
      SkipList.Open(depth, size, bins.forward, bins.level, bins.levels, bins.rank, bins.low);
      bins.Register(size, h);
      SkipList.Close(depth, size, bins.forward, bins.level, bins.levels, bins.rank, bins.low);
    }

    /**
     * klfree of cell p of small page h: a page whose stack was empty goes back in front of its
     * bin's list, then the cell is pushed.
     */
    method GiveCell(h: u32, p: u32)
      requires Valid() && h in size && size[h] < BIG_BIN && HeaderOf(p) == h && Allocated(p)
      modifies this
      ensures Valid()
      ensures size == old(size) && chain == old(chain) && FreeBlocks() == old(FreeBlocks())
      ensures stacks == old(stacks)[h := [p] + old(stacks[h])]
      ensures forall q :: Allocated(q) <==> old(Allocated(q)) && q != p
    {
      OwnedCell(depth, heap.start as nat, heap.brk as nat, size, magic, head, next, link, first, prev, newest,
                stacks, pages, chain, bins.forward, bins.levels[0], h, p);
      var c := size[h] as nat;
      if StackEmpty(h) {
        ListInsert(c, h);
        pages := pages[c := [h] + pages[c]];
      }
      StackPush(h, p);
      stacks := stacks[h := [p] + stacks[h]];
      GiveCellStep(depth, heap.start as nat, heap.brk as nat, size, magic, old(head), old(next), old(link), old(first), prev,
                   newest, old(stacks), old(pages), chain, bins.forward, bins.levels[0], h, p, next, first, pages);
    }

    /**
     * klmalloc_skip_list_insert of the block h that was in use: it joins the free blocks and
     * the generator moves on by the draws of its level.
     */
    method InsertBlock(h: u32)
      requires SkipList.Sealed(depth, size, bins.forward, bins.level, bins.levels, bins.rank, bins.low)
      requires |bins.levels| > 0 && SkipList.Node(size, bins.forward, h) && h !in bins.levels[0]
      modifies bins, rng
      ensures SkipList.Sealed(depth, size, bins.forward, bins.level, bins.levels, bins.rank, bins.low)
      ensures |bins.levels| == |old(bins.levels)| && SkipList.Kept(old(bins.forward), bins.forward)
      ensures forall x :: x in bins.levels[0] <==> x in old(bins.levels[0]) || x == h
      ensures forall j :: 0 <= j < |bins.levels[0]| ==> bins.levels[0][j] in size
      ensures rng.Get() == SkipRand.After(old(rng.Get()), SkipRand.LeadingBelow(SkipRand.Draws(old(rng.Get()), SkipList.MAX_LEVEL)) + 1)
    {
      SkipList.Open(depth, size, bins.forward, bins.level, bins.levels, bins.rank, bins.low);
      ghost var L := bins.levels;
      ghost var height := SkipRand.LeadingBelow(SkipRand.Draws(rng.Get(), SkipList.MAX_LEVEL));
      bins.Insert(size, h, rng);
      SkipList.SplicedFloor(size, L, h, height);
      SkipList.Close(depth, size, bins.forward, bins.level, bins.levels, bins.rank, bins.low);
    }

    /**
     * klfree of big block h, whose head is NULL while it is in use: the cell past its header is
     * pushed and the block goes on the skip list.
     */
    method GiveBlock(h: u32)
      requires Valid() && h in size && size[h] as nat > NUM_BINS && h in head && head[h] == NULL
      modifies this, bins, rng
      ensures Valid()
      ensures size == old(size) && chain == old(chain) && h as nat + BIG_HEADER < U32_LIMIT
      ensures stacks == old(stacks)[h := [h + BIG_HEADER as u32]]
      ensures forall x :: x in FreeBlocks() <==> x in old(FreeBlocks()) || x == h
      ensures old(Allocated(h + BIG_HEADER as u32))
      ensures forall q :: Allocated(q) <==> old(Allocated(q)) && q as nat != h as nat + BIG_HEADER
    {
      OwnedBlock(depth, heap.start as nat, heap.brk as nat, size, magic, head, next, link, first, prev, newest,
                 stacks, pages, chain, bins.forward, bins.levels[0], h);
      var p := h + BIG_HEADER as u32;
      StackPush(h, p);
      stacks := stacks[h := [p]];
      InsertBlock(h);
      GiveBlockStep(depth, heap.start as nat, heap.brk as nat, size, magic, old(head), next, old(link), first, prev, newest,
                    old(stacks), pages, chain, old(bins.forward), old(bins.levels[0]), h, bins.forward, bins.levels[0]);
    }

    /**
     * The pointer klfree gives back for ptr: the cell itself on a small page, and the first byte
     * past the header on a big block, whichever byte of the block ptr names.
     */
    ghost function Released(ptr: u32): u32
      reads this
    {
      var h := HeaderOf(Adjusted(ptr));
      if h in size && size[h] as nat > NUM_BINS then h + BIG_HEADER as u32 else Adjusted(ptr)
    }

    /** What klfree accepts: NULL, a pointer outside every header's page, or one it gives back live. */
    ghost predicate Freeable(ptr: u32)
      reads this
    {
      ptr == NULL || HeaderOf(Adjusted(ptr)) !in magic || Allocated(Released(ptr))
    }

    /**
     * klfree: NULL and pointers whose page carries no magic are ignored; a page-aligned pointer
     * (one klvalloc returned) moves back a byte before its header is found.
     */
    method Free(ptr: u32)
      requires Valid() && Freeable(ptr)
      modifies this, bins, rng
      ensures Valid()
      ensures size == old(size) && chain == old(chain)
      ensures ptr == NULL || HeaderOf(Adjusted(ptr)) !in old(magic) ==> unchanged(this, bins, rng)
      ensures ptr != NULL && HeaderOf(Adjusted(ptr)) in old(magic) ==>
        var p := old(Released(ptr));
        && old(Allocated(p)) && !Allocated(p)
        && (forall q :: Allocated(q) <==> old(Allocated(q)) && q != p)
        && (forall x :: x in FreeBlocks() <==> x in old(FreeBlocks()) || (x in size && size[x] as nat > NUM_BINS && x == HeaderOf(p)))
    {
      if ptr == NULL {
        return;
      }
      var p := Adjusted(ptr);
      var h := HeaderOf(p);
      if h in magic {
        MagicHeader(depth, heap.start as nat, heap.brk as nat, size, magic, head, next, link, first, prev, newest,
                    stacks, pages, chain, bins.forward, bins.levels[0], h);
      }
      if h !in magic || magic[h] != BIN_MAGIC {
        return;
      }
      if size[h] > NUM_BINS as u32 {
        HeaderOfIn(h, h + BIG_HEADER as u32);
        GiveBlock(h);
      } else {
        GiveCell(h, p);
      }
    }

    /**
     * klmalloc_skip_list_findbest over the free big blocks: NULL when none holds request bytes,
     * otherwise the first of the smallest blocks that do.
     */
    method BestFree(request: u32) returns (best: u32)
      requires Valid()
      ensures best == SkipList.At(FreeBlocks(), SkipList.Below(size, FreeBlocks(), request))
      ensures best == NULL <==> forall h :: h in FreeBlocks() ==> size[h] < request
      ensures best != NULL ==> best in FreeBlocks() && size[best] >= request && SkipList.IsFirst(size, bins.levels, best)
      ensures best != NULL ==> forall h :: h in FreeBlocks() && size[h] >= request ==> size[best] <= size[h]
    {
      SkipList.Open(depth, size, bins.forward, bins.level, bins.levels, bins.rank, bins.low);
      best := bins.FindBest(size, request);
    }

    /**
     * When klmalloc halts: on a miss only, when the heap cannot grow by what the miss takes (a
     * page for a small bin whose list is empty, the block's pages when no free big block holds
     * the request).
     */
    ghost predicate MallocHalts(request: u32, frames: seq<u32>)
      reads this, heap, bins
      requires Valid() && |frames| > (request as nat + BIG_HEADER) / PAGE_SIZE
    {
      && request > 0
      && if BinSize(request) < BIG_BIN then first[BinSize(request)] == NULL && GrowFails(PAGE_SIZE, frames)
         else (forall h :: h in FreeBlocks() ==> size[h] < request) && GrowFails(BigGrowth(request), frames)
    }

    /**
     * klmalloc: 0 bytes give NULL; up to 2048 bytes a cell of the least bin that holds them,
     * from the first page of that bin with a free cell or from a fresh page; more than that
     * the best-fitting free big block, or a fresh one when none is big enough. The kernel
     * halts when the heap cannot grow.
     */
    method Malloc(request: u32, frames: seq<u32>) returns (r: u32, halted: bool)
      requires Valid() && |frames| > (request as nat + BIG_HEADER) / PAGE_SIZE
      modifies this, heap, heap.mem, bins
      ensures Valid()
      ensures halted <==> old(MallocHalts(request, frames))
      ensures heap.start == old(heap.start) && heap.size == old(heap.size) && heap.mem == old(heap.mem)
      ensures request == 0 ==> r == NULL && !halted && unchanged(this, bins) && heap.brk == old(heap.brk)
      ensures halted ==> unchanged(this, bins) && heap.brk == old(heap.brk) && heap.mem[..] == old(heap.mem[..])
      ensures !halted && request > 0 ==> !old(Allocated(r)) && Allocated(r) && request as nat <= Room(size, r)
      ensures !halted ==> forall q :: Allocated(q) <==> old(Allocated(q)) || (q == r && request > 0)
      ensures !halted ==> forall i :: 0 <= i < old(heap.brk) as nat ==> heap.mem[i] == old(heap.mem[i])
      ensures forall x :: x in old(size) ==> x in size && size[x] == old(size[x])
      ensures !halted && 0 < request as nat <= LARGEST_SMALL ==>
        BinSize(request) < BIG_BIN && Room(size, r) == CellSize(BinSize(request))
      ensures !halted && request as nat > LARGEST_SMALL ==> r as nat == HeaderOf(r) as nat + BIG_HEADER
      ensures !halted && request as nat > LARGEST_SMALL ==>
        && (forall h :: h in old(FreeBlocks()) && old(size[h]) >= request ==> Room(size, r) <= old(size[h]))
        && ((exists h :: h in old(FreeBlocks()) && old(size[h]) >= request) || Room(size, r) <= request as nat + PAGE_SIZE)
      ensures request as nat > LARGEST_SMALL ==>
        BlockTaken(request, r, halted, old(size), old(bins.levels), old(heap.brk))
      ensures request as nat <= LARGEST_SMALL ==> FreeBlocks() == old(FreeBlocks())
    {
      if request == 0 {
        return NULL, false;
      }
      var c := BinSize(request);
      if c < BIG_BIN {
        if request as nat > LARGEST_SMALL {
          BigRequestsBigBin(request);
        }
        SmallBinFits(request);
        r, halted := SmallMalloc(request, frames);
      } else {
        if request as nat <= LARGEST_SMALL {
          SmallBinFits(request);
        }
        r, halted := BigMalloc(request, frames);
      }
    }

    /** klmalloc's small-bin path: a fresh page when the bin's list is empty, then its top cell. */
    method SmallMalloc(request: u32, frames: seq<u32>) returns (r: u32, halted: bool)
      requires Valid() && 1 <= request as nat <= LARGEST_SMALL && BinSize(request) < BIG_BIN && |frames| >= 1
      modifies this, heap, heap.mem
      ensures Valid()
      ensures halted <==> old(first[BinSize(request)] == NULL && GrowFails(PAGE_SIZE, frames))
      ensures heap.start == old(heap.start) && heap.size == old(heap.size) && heap.mem == old(heap.mem)
      ensures halted ==> unchanged(this) && heap.brk == old(heap.brk) && heap.mem[..] == old(heap.mem[..])
      ensures !halted ==> !old(Allocated(r)) && Allocated(r) && Room(size, r) == CellSize(BinSize(request))
      ensures FreeBlocks() == old(FreeBlocks())
      ensures !halted ==> forall q :: Allocated(q) <==> old(Allocated(q)) || q == r
      ensures !halted ==> forall i :: 0 <= i < old(heap.brk) as nat ==> heap.mem[i] == old(heap.mem[i])
      ensures forall x :: x in old(size) ==> x in size && size[x] == old(size[x])
    {
      var c := BinSize(request);
      SmallBinFits(request);
      halted := false;
      if ListHead(c) == NULL {
        var h;
        h, halted := NewPage(c, frames);
        if halted {
          return NULL, true;
        }
      }
      r := TakeCell(c);
    }

    /**
     * The block klmalloc's big-bin path hands out, against the sizes size0, the skip-list levels
     * levels0 and the break brk0 before the call. The free blocks are levels0[0], and the best fit
     * is their first node of size at least the request (SkipList.BestFit: the first of the
     * smallest free blocks that hold it, NULL when none does). The best fit is handed out and
     * leaves the free blocks; without one, a new block at brk0, the free blocks unchanged.
     */
    ghost predicate BlockTaken(request: u32, r: u32, halted: bool, size0: map<u32, u32>, levels0: seq<seq<u32>>, brk0: u32)
      reads this, bins
      requires |bins.levels| > 0 && |levels0| > 0 && forall j :: 0 <= j < |levels0[0]| ==> levels0[0][j] in size0
    {
      var best := SkipList.At(levels0[0], SkipList.Below(size0, levels0[0], request));
      && (best != NULL ==> !halted && HeaderOf(r) == best && FreeBlocks() == SkipList.Without(levels0[0], best))
      && (best == NULL && !halted ==> HeaderOf(r) == brk0 && FreeBlocks() == levels0[0])
    }

    /** klmalloc's big-bin path: the best-fitting free block, else a new block at the break. */
    method BigMalloc(request: u32, frames: seq<u32>) returns (r: u32, halted: bool)
      requires Valid() && request as nat > LARGEST_SMALL && |frames| > (request as nat + BIG_HEADER) / PAGE_SIZE
      modifies this, heap, heap.mem, bins
      ensures Valid()
      ensures halted <==> old((forall h :: h in FreeBlocks() ==> size[h] < request) && GrowFails(BigGrowth(request), frames))
      ensures heap.start == old(heap.start) && heap.size == old(heap.size) && heap.mem == old(heap.mem)
      ensures halted ==> unchanged(this, bins) && heap.brk == old(heap.brk) && heap.mem[..] == old(heap.mem[..])
      ensures !halted ==> !old(Allocated(r)) && Allocated(r) && request as nat <= Room(size, r)
      ensures !halted ==> r as nat == HeaderOf(r) as nat + BIG_HEADER
      ensures !halted ==> forall q :: Allocated(q) <==> old(Allocated(q)) || q == r
      ensures !halted ==> forall i :: 0 <= i < old(heap.brk) as nat ==> heap.mem[i] == old(heap.mem[i])
      ensures forall x :: x in old(size) ==> x in size && size[x] == old(size[x])
      ensures !halted ==>
        && (forall h :: h in old(FreeBlocks()) && old(size[h]) >= request ==> Room(size, r) <= old(size[h]))
        && ((exists h :: h in old(FreeBlocks()) && old(size[h]) >= request) || Room(size, r) <= request as nat + PAGE_SIZE)
      ensures BlockTaken(request, r, halted, old(size), old(bins.levels), old(heap.brk))
    {
      halted := false;
      var best := BestFree(request);
      if best != NULL {
        r := TakeBlock(best);
      } else {
        r, halted := NewBlock(request, frames);
      }
    }

    /** A live pointer is the pointer klfree gives back for it, so it may be freed. */
    lemma LiveFreeable(p: u32)
      requires Valid() && Allocated(p)
      ensures p != NULL && Adjusted(p) == p && HeaderOf(p) in magic && magic[HeaderOf(p)] == BIN_MAGIC && Released(p) == p && Freeable(p)
    {
      LiveHeader(depth, heap.start as nat, heap.brk as nat, size, magic, head, next, link, first, prev, newest,
                 stacks, pages, chain, bins.forward, bins.levels[0], p);
    }

    /**
     * klvalloc: size + 4048 bytes from klmalloc, handed out 4048 bytes in, which is the start of
     * the page after a big block's header; a result that is not page aligned fails the ASSERT.
     * The sum is u32 arithmetic: a size within 4048 of 2^32 wraps around to a small request.
     */
    method Valloc(request: u32, frames: seq<u32>) returns (out: u32, halted: bool)
      requires Valid() && |frames| > (VallocRequest(request) as nat + BIG_HEADER) / PAGE_SIZE
      modifies this, heap, heap.mem, bins
      ensures Valid()
      ensures heap.start == old(heap.start) && heap.size == old(heap.size) && heap.mem == old(heap.mem)
      ensures !halted ==> out % PAGE_SIZE == 0
      ensures old(MallocHalts(VallocRequest(request), frames)) ==> halted
      ensures request as nat + PAGE_SIZE - BIG_HEADER < U32_LIMIT ==> (halted <==> old(MallocHalts(VallocRequest(request), frames)))
      ensures !halted && request as nat + PAGE_SIZE - BIG_HEADER < U32_LIMIT ==>
        out as nat >= PAGE_SIZE - BIG_HEADER && var r := out - (PAGE_SIZE - BIG_HEADER) as u32;
        && HeaderOf(r) as nat + PAGE_SIZE == out as nat
        && !old(Allocated(r)) && Allocated(r) && out as nat + request as nat <= r as nat + Room(size, r)
        && (forall q :: Allocated(q) <==> old(Allocated(q)) || q == r)
      ensures halted && request as nat + PAGE_SIZE - BIG_HEADER < U32_LIMIT ==>
        unchanged(this, bins) && heap.brk == old(heap.brk)
    {
      var trueSize := VallocRequest(request);
      var result;
      result, halted := Malloc(trueSize, frames);
      if halted {
        return NULL, true;
      }
      out := Wrap32(result as nat + PAGE_SIZE - BIG_HEADER);
      if out % PAGE_SIZE != 0 {
        return out, true;
      }
      if request as nat + PAGE_SIZE - BIG_HEADER < U32_LIMIT {
        LiveBounds(depth, heap.start as nat, heap.brk as nat, size, magic, head, next, link, first, prev, newest,
                   stacks, pages, chain, bins.forward, bins.levels[0], result, result);
      }
    }

    /** klvalloc with the sum checked: a size whose sum with 4048 leaves u32 gets NULL. */
    method VallocChecked(request: u32, frames: seq<u32>) returns (out: u32, halted: bool)
      requires Valid() && |frames| > (VallocRequest(request) as nat + BIG_HEADER) / PAGE_SIZE
      modifies this, heap, heap.mem, bins
      ensures Valid()
      ensures request as nat + PAGE_SIZE - BIG_HEADER >= U32_LIMIT ==> out == NULL && !halted && unchanged(this, bins)
      ensures request as nat + PAGE_SIZE - BIG_HEADER < U32_LIMIT ==> (halted <==> old(MallocHalts(VallocRequest(request), frames)))
      ensures out != NULL && !halted ==>
        var r := out - (PAGE_SIZE - BIG_HEADER) as u32;
        && out % PAGE_SIZE == 0 && HeaderOf(r) as nat + PAGE_SIZE == out as nat
        && !old(Allocated(r)) && Allocated(r) && out as nat + request as nat <= r as nat + Room(size, r)
        && (forall q :: Allocated(q) <==> old(Allocated(q)) || q == r)
      ensures halted ==> unchanged(this, bins) && heap.brk == old(heap.brk)
    {
      if request as nat + PAGE_SIZE - BIG_HEADER >= U32_LIMIT {
        return NULL, false;
      }
      out, halted := Valloc(request, frames);
    }

    /**
     * klrealloc: NULL gets klmalloc, size 0 frees; a page without the magic word fails the
     * ASSERT. A block whose room (the cell size, or the big block's size) holds the request is
     * kept; otherwise a new one is allocated, the old room copied over and the old one freed.
     */
    method Realloc(ptr: u32, request: u32, frames: seq<u32>) returns (r: u32, halted: bool)
      requires Valid() && |frames| > (request as nat + BIG_HEADER) / PAGE_SIZE
      requires ptr == NULL || Allocated(ptr) || (HeaderOf(ptr) !in magic && Freeable(ptr))
      modifies this, heap, heap.mem, bins, rng
      ensures Valid()
      ensures ptr == NULL ==> (halted <==> old(MallocHalts(request, frames)))
      ensures ptr != NULL && request > 0 && old(Allocated(ptr)) && request as nat > old(Room(size, ptr)) ==>
        (halted <==> old(MallocHalts(request, frames)))
      ensures ptr == NULL && !halted ==>
        && (request > 0 ==> !old(Allocated(r)) && Allocated(r) && request as nat <= Room(size, r))
        && forall q :: Allocated(q) <==> old(Allocated(q)) || (q == r && request > 0)
      ensures ptr != NULL && request == 0 ==> r == NULL && !halted
      ensures ptr != NULL && request == 0 && old(Allocated(ptr)) ==> forall q :: Allocated(q) <==> old(Allocated(q)) && q != ptr
      ensures ptr != NULL && request > 0 && HeaderOf(ptr) !in old(magic) ==> halted
      ensures ptr != NULL && request > 0 && old(Allocated(ptr)) && request as nat <= old(Room(size, ptr)) ==>
        r == ptr && !halted && unchanged(this, bins, rng) && heap.brk == old(heap.brk)
      ensures ptr != NULL && request > 0 && old(Allocated(ptr)) && request as nat > old(Room(size, ptr)) && !halted ==>
        && !old(Allocated(r)) && Allocated(r) && !Allocated(ptr) && request as nat <= Room(size, r)
        && (forall q :: Allocated(q) <==> (old(Allocated(q)) && q != ptr) || q == r)
        && ptr as nat + old(Room(size, ptr)) <= old(heap.brk) as nat && r as nat + Room(size, r) <= heap.brk as nat
        && heap.mem[r..r as nat + old(Room(size, ptr))] == old(heap.mem[ptr..ptr as nat + Room(size, ptr)])
    {
      if ptr == NULL {
        r, halted := Malloc(request, frames);
        return;
      }
      if request == 0 {
        if Allocated(ptr) {
          LiveFreeable(ptr);
        }
        Free(ptr);
        return NULL, false;
      }
      r, halted := Resize(ptr, request, frames);
    }

    /** klrealloc of a pointer that is not NULL to a size that is not 0. */
    method Resize(ptr: u32, request: u32, frames: seq<u32>) returns (r: u32, halted: bool)
      requires Valid() && |frames| > (request as nat + BIG_HEADER) / PAGE_SIZE
      requires ptr != NULL && request > 0 && (Allocated(ptr) || HeaderOf(ptr) !in magic)
      modifies this, heap, heap.mem, bins, rng
      ensures Valid()
      ensures HeaderOf(ptr) !in old(magic) ==> halted
      ensures old(Allocated(ptr)) && request as nat > old(Room(size, ptr)) ==> (halted <==> old(MallocHalts(request, frames)))
      ensures old(Allocated(ptr)) && request as nat <= old(Room(size, ptr)) ==>
        r == ptr && !halted && unchanged(this, bins, rng) && heap.brk == old(heap.brk)
      ensures old(Allocated(ptr)) && request as nat > old(Room(size, ptr)) && !halted ==>
        && !old(Allocated(r)) && Allocated(r) && !Allocated(ptr) && request as nat <= Room(size, r)
        && (forall q :: Allocated(q) <==> (old(Allocated(q)) && q != ptr) || q == r)
        && ptr as nat + old(Room(size, ptr)) <= old(heap.brk) as nat && r as nat + Room(size, r) <= heap.brk as nat
        && heap.mem[r..r as nat + old(Room(size, ptr))] == old(heap.mem[ptr..ptr as nat + Room(size, ptr)])
    {
      if Allocated(ptr) {
        LiveFreeable(ptr);
      }
      var h := HeaderOf(ptr);
      if h !in magic || magic[h] != BIN_MAGIC {
        return NULL, true;
      }
      var oldSize := size[h];
      if oldSize < BIG_BIN as u32 {
        oldSize := CellSize(oldSize as nat) as u32;
      }
      if oldSize >= request {
        return ptr, false;
      }
      r, halted := Move(ptr, oldSize, request, frames);
    }

    /**
     * klrealloc's growth: a new block from klmalloc, the n bytes of ptr's room copied into it,
     * then ptr freed.
     */
    method Move(ptr: u32, n: u32, request: u32, frames: seq<u32>) returns (r: u32, halted: bool)
      requires Valid() && |frames| > (request as nat + BIG_HEADER) / PAGE_SIZE
      requires Allocated(ptr) && n as nat == Room(size, ptr) && n < request
      modifies this, heap, heap.mem, bins, rng
      ensures Valid()
      ensures halted <==> old(MallocHalts(request, frames))
      ensures halted ==> r == NULL && unchanged(this, bins, rng) && heap.brk == old(heap.brk)
      ensures !halted ==>
        && !old(Allocated(r)) && Allocated(r) && !Allocated(ptr) && request as nat <= Room(size, r)
        && (forall q :: Allocated(q) <==> (old(Allocated(q)) && q != ptr) || q == r)
        && ptr as nat + n as nat <= old(heap.brk) as nat && r as nat + Room(size, r) <= heap.brk as nat
        && heap.mem[r..r as nat + n as nat] == old(heap.mem[ptr..ptr as nat + n as nat])
    {
      r, halted := Duplicate(ptr, n, request, frames);
      if halted {
        return;
      }
      LiveFreeable(ptr);
      Free(ptr);
      assert !Allocated(ptr) && Allocated(r);
    }

    /** The first half of klrealloc's growth: the new block, holding a copy of ptr's n bytes. */
    method Duplicate(ptr: u32, n: u32, request: u32, frames: seq<u32>) returns (r: u32, halted: bool)
      requires Valid() && |frames| > (request as nat + BIG_HEADER) / PAGE_SIZE
      requires Allocated(ptr) && n as nat == Room(size, ptr) && n < request
      modifies this, heap, heap.mem, bins
      ensures Valid()
      ensures halted <==> old(MallocHalts(request, frames))
      ensures halted ==> r == NULL && unchanged(this, bins) && heap.brk == old(heap.brk)
      ensures !halted ==>
        && !old(Allocated(r)) && Allocated(r) && Allocated(ptr) && r != ptr && request as nat <= Room(size, r)
        && (forall q :: Allocated(q) <==> old(Allocated(q)) || q == r)
        && ptr as nat + n as nat <= old(heap.brk) as nat && r as nat + Room(size, r) <= heap.brk as nat
        && heap.mem[r..r as nat + n as nat] == old(heap.mem[ptr..ptr as nat + n as nat])
    {
      LiveBounds(depth, heap.start as nat, heap.brk as nat, size, magic, head, next, link, first, prev, newest,
                 stacks, pages, chain, bins.forward, bins.levels[0], ptr, ptr);
      ghost var s0 := heap.mem[ptr..ptr as nat + n as nat];
      r, halted := Malloc(request, frames);
      if halted {
        return NULL, true;
      }
      assert heap.mem[ptr..ptr as nat + n as nat] == s0;
      CopyRoom(r, ptr, n);
      assert heap.mem[r..r as nat + n as nat] == s0;
    }

    /** The memcpy of klrealloc: the first n bytes of src's room into dst's, another live pointer. */
    method CopyRoom(dst: u32, src: u32, n: u32)
      requires Valid() && Allocated(dst) && Allocated(src) && dst != src
      requires n as nat <= Room(size, src) && n as nat <= Room(size, dst)
      modifies heap.mem
      ensures dst as nat + Room(size, dst) <= heap.brk as nat && src as nat + Room(size, src) <= heap.brk as nat
      ensures heap.mem[..] == Common.Copied(old(heap.mem[..]), dst as nat, src as nat, n as nat)
      ensures heap.mem[dst..dst as nat + n as nat] == old(heap.mem[src..src as nat + n as nat])
    {
      LiveBounds(depth, heap.start as nat, heap.brk as nat, size, magic, head, next, link, first, prev, newest,
                 stacks, pages, chain, bins.forward, bins.levels[0], dst, src);
      ghost var m := heap.mem[..];
      var _ := Common.Memcpy(heap.mem, dst as nat, src as nat, n as nat);
      assert heap.mem[dst..dst as nat + n as nat] == m[src..src as nat + n as nat];
    }

    /**
     * klcalloc: nmemb * size bytes from klmalloc, zeroed. The product is u32 arithmetic and
     * wraps around when it does not fit.
     */
    method Calloc(nmemb: u32, width: u32, frames: seq<u32>) returns (r: u32, halted: bool)
      requires Valid() && |frames| > (CallocRequest(nmemb, width) as nat + BIG_HEADER) / PAGE_SIZE
      modifies this, heap, heap.mem, bins
      ensures Valid()
      ensures halted <==> old(MallocHalts(CallocRequest(nmemb, width), frames))
      ensures halted ==> unchanged(this, bins) && heap.brk == old(heap.brk)
      ensures !halted ==> var n := CallocRequest(nmemb, width);
        && (r == NULL <==> n == 0)
        && (forall q :: Allocated(q) <==> old(Allocated(q)) || (q == r && n > 0))
        && (r != NULL ==> !old(Allocated(r)) && Allocated(r) && n as nat <= Room(size, r)
                          && r as nat + n as nat <= heap.mem.Length && heap.mem[r..r as nat + n as nat] == Common.Fill(0, n as nat))
    {
      var n := CallocRequest(nmemb, width);
      r, halted := Malloc(n, frames);
      if !halted && n > 0 {
        LiveFreeable(r);
      }
      if !halted && r != NULL {
        LiveBounds(depth, heap.start as nat, heap.brk as nat, size, magic, head, next, link, first, prev, newest,
                   stacks, pages, chain, bins.forward, bins.levels[0], r, r);
        var _ := Common.Memset(heap.mem, r as nat, 0, n as nat);
      }
    }

    /** klcalloc with the product checked: nmemb * size past u32 gets NULL. */
    method CallocChecked(nmemb: u32, width: u32, frames: seq<u32>) returns (r: u32, halted: bool)
      requires Valid() && |frames| > (CallocRequest(nmemb, width) as nat + BIG_HEADER) / PAGE_SIZE
      modifies this, heap, heap.mem, bins
      ensures Valid()
      ensures nmemb as nat * width as nat >= U32_LIMIT ==> r == NULL && !halted && unchanged(this, bins)
      ensures nmemb as nat * width as nat < U32_LIMIT ==> (halted <==> old(MallocHalts(CallocRequest(nmemb, width), frames)))
      ensures r != NULL && !halted ==>
        && !old(Allocated(r)) && Allocated(r) && nmemb as nat * width as nat <= Room(size, r)
        && r as nat + nmemb as nat * width as nat <= heap.mem.Length
        && heap.mem[r..r as nat + nmemb as nat * width as nat] == Common.Fill(0, nmemb as nat * width as nat)
    {
      if nmemb as nat * width as nat >= U32_LIMIT {
        return NULL, false;
      }
      r, halted := Calloc(nmemb, width, frames);
    }
  }

  /** klvalloc's request to klmalloc: size + PAGE_SIZE - 48 in u32 arithmetic. */
  function VallocRequest(size: u32): (n: u32)
    ensures size as nat + PAGE_SIZE - BIG_HEADER < U32_LIMIT ==> n as nat == size as nat + PAGE_SIZE - BIG_HEADER
    ensures size as nat + PAGE_SIZE - BIG_HEADER >= U32_LIMIT ==> n < PAGE_SIZE - BIG_HEADER
  {
    Wrap32(size as nat + PAGE_SIZE - BIG_HEADER)
  }

  /** klcalloc's request to klmalloc: nmemb * size in u32 arithmetic. */
  function CallocRequest(nmemb: u32, size: u32): (n: u32)
    ensures nmemb as nat * size as nat < U32_LIMIT ==> n as nat == nmemb as nat * size as nat
  {
    Wrap32(nmemb as nat * size as nat)
  }

  /** A size near 2^32 makes klvalloc ask klmalloc for fewer bytes than the size itself. */
  lemma VallocWraps()
    ensures VallocRequest(0xFFFF_FC18) == 3048 && 0xFFFF_FC18 > 3048
  {
  }

  /** 65536 elements of 65537 bytes make klcalloc ask klmalloc for 65536 bytes. */
  lemma CallocWraps()
    ensures CallocRequest(0x1_0000, 0x1_0001) == 0x1_0000 < 0x1_0000 * 0x1_0001
  {
  }

  /** The words of FormatPage's loop, computed from the words link0 it starts from. */
  method Formatted(link0: map<u32, u32>, h: u32, c: nat) returns (link: map<u32, u32>)
    requires c < BIG_BIN && h % PAGE_SIZE == 0 && h + PAGE_SIZE <= U32_LIMIT
    ensures Threads(h + SMALL_HEADER, link, Cells(h, c))
    ensures forall x :: x in link0 && HeaderOf(x) != h ==> x in link && link[x] == link0[x]
  {
    var adj := SMALLEST_BIN_LOG + c;
    var available := (PAGE_SIZE - SMALL_HEADER) / Pow2(adj) - 1;
    assert Pow2(adj) == CellSize(c);
    var base := h + SMALL_HEADER;
    link := link0;
    var i := 0;
    while i < available
      invariant 0 <= i <= available == LastCell(c)
      invariant forall k :: 0 <= k < i ==> CellWord(h, c, k) in link && link[CellWord(h, c, k)] == CellWord(h, c, k + 1)
      invariant forall x :: x in link0 && HeaderOf(x) != h ==> x in link && link[x] == link0[x]
    {
      FormatStep(link0, link, h, c, i);
      link := link[WordAt(base, c, i) := WordAt(base, c, i + 1)];
      i := i + 1;
    }
    FormatEnd(link0, link, h, c);
    link := link[WordAt(base, c, available) := NULL];
  }
}
