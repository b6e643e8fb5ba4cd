// The kernel heap of src/kheap.c: a bump pointer (heap_brk) over a bounded region of the data
// segment's relative virtual addresses, backed page by page by frames from the data bitmap.
module KHeap {
  import opened Types
  import Common

  /** The heap region never exceeds 1024 pages (4 MiB). */
  const HEAP_MAX: nat := PAGE_SIZE * 1024

  /**
   * The mappings after mmap has been asked to back the pages from virt on, one page each, by
   * the frames fs: the k-th page at virt + k * PAGE_SIZE maps to fs[k].
   */
  function MapPages(m: map<u32, u32>, virt: nat, fs: seq<u32>): map<u32, u32>
    requires virt + |fs| * PAGE_SIZE <= U32_LIMIT
    decreases |fs|
  {
    if fs == [] then m
    else MapPages(m, virt, fs[..|fs| - 1])[(virt + (|fs| - 1) * PAGE_SIZE) as u32 := fs[|fs| - 1]]
  }

  /**
   * Every page of the run maps to its own frame, and every other key keeps its old mapping.
   */
  lemma {:induction false} MapPagesSpec(m: map<u32, u32>, virt: nat, fs: seq<u32>)
    requires virt + |fs| * PAGE_SIZE <= U32_LIMIT
    ensures m.Keys <= MapPages(m, virt, fs).Keys
    ensures forall i :: 0 <= i < |fs| ==>
      var key := (virt + i * PAGE_SIZE) as u32;
      key in MapPages(m, virt, fs) && MapPages(m, virt, fs)[key] == fs[i]
    ensures forall key :: key in MapPages(m, virt, fs) && !InRun(key, virt, |fs|) ==>
      key in m && MapPages(m, virt, fs)[key] == m[key]
    decreases |fs|
  {
    if fs != [] {
      var n := |fs| - 1;
      var init := fs[..n];
      MapPagesSpec(m, virt, init);
      var r := MapPages(m, virt, fs);
      var last := (virt + n * PAGE_SIZE) as u32;
      assert r == MapPages(m, virt, init)[last := fs[n]];
      forall i | 0 <= i < |fs|
        ensures (virt + i * PAGE_SIZE) as u32 in r && r[(virt + i * PAGE_SIZE) as u32] == fs[i]
      {
        if i < n {
          assert init[i] == fs[i];
          assert virt + i * PAGE_SIZE < virt + n * PAGE_SIZE;
        }
      }
      forall key | key in r && !InRun(key, virt, |fs|)
        ensures key in m && r[key] == m[key]
      {
        assert key != last;
        assert !InRun(key, virt, n);
      }
    }
  }

  /** key is the address of one of the n pages from virt on. */
  predicate InRun(key: nat, virt: nat, n: nat) {
    virt <= key < virt + n * PAGE_SIZE && (key - virt) % PAGE_SIZE == 0
  }

  /** The index of the first NULL frame in fs, or |fs| when there is none. */
  function FirstNull(fs: seq<u32>): (k: nat)
    ensures k <= |fs| && (k < |fs| ==> fs[k] == NULL)
    ensures forall i :: 0 <= i < k ==> fs[i] != NULL
  {
    if fs == [] then 0
    else if fs[0] == NULL then 0
    else 1 + FirstNull(fs[1..])
  }

  /**
   * The heap size init_heap picks from the free space: the most whole pages that fit in half
   * of it, but at most 1024 pages.
   */
  function HeapSize(free: u32): (size: u32)
    ensures size % PAGE_SIZE == 0 && size <= HEAP_MAX && 2 * size <= free
    ensures size == HEAP_MAX || free / 2 < size + PAGE_SIZE
  {
    var s := free / 2 / PAGE_SIZE * PAGE_SIZE;
    if s > HEAP_MAX then HEAP_MAX else s
  }

  /** Taking a sum modulo 2^32 keeps whether it is page aligned. */
  lemma WrapPageAligned(x: nat)
    ensures Wrap32(x) % PAGE_SIZE == 0 <==> x % PAGE_SIZE == 0
  {
    var q := x / U32_LIMIT;
    assert x == q * U32_LIMIT + Wrap32(x);
    assert q * U32_LIMIT == (q * (U32_LIMIT / PAGE_SIZE)) * PAGE_SIZE;
  }

  /**
   * A data segment that ends below the heap's start: the u32 difference wraps around and the
   * heap gets its full 1024 pages, every one of them past the data segment's end.
   */
  lemma HeapPastDataEnd()
    ensures var start := Wrap32(0x40_0000 + HEAP_MAX);
      && start == 0x80_0000 && HeapSize(Wrap32(0x40_0000 - start)) == HEAP_MAX && 0x40_0000 < start
  {
    assert Wrap32(0x40_0000 - 0x80_0000) == 0xFFC0_0000;
  }

  /**
   * The heap's globals: heap_start_rel_virt_addr, heap_size and heap_brk, with the memory they
   * address (relative virtual addresses of the data segment) and the mappings sbrk requested.
   */
  class KernelHeap {
    var start: u32
    var size: u32
    var brk: u32
    /** The bytes at the data segment's relative virtual addresses. */
    var mem: array<u8>
    /** The virtual-to-physical page mappings sbrk has installed through mmap. */
    var mapped: map<u32, u32>

    ghost predicate Valid()
      reads this
    {
      && size % PAGE_SIZE == 0 && size <= HEAP_MAX
      && start <= brk <= start + size < U32_LIMIT
      && start + size <= mem.Length
    }

    constructor (memory: array<u8>)
      ensures mem == memory && mapped == map[] && start == 0 && size == 0 && brk == 0
      ensures Valid()
    {
      mem := memory;
      mapped := map[];
      start, size, brk := 0, 0, 0;
    }

    /**
     * init_heap: the heap starts 1024 pages past the page tables; it takes half of the data
     * space left beyond that start, rounded down to a page and capped at 1024 pages; brk starts
     * at the heap's start. The sum and the difference are the source's u32 ones: when the data
     * segment ends below the heap's start, the difference wraps around to a large free space.
     */
    method InitHeap(pageTablesRelVirt: u32, dataLen: u32)
      modifies this
      ensures start == Wrap32(pageTablesRelVirt + HEAP_MAX) && brk == start
      ensures size == HeapSize(Wrap32(dataLen - start))
      ensures start <= dataLen ==> 2 * size <= dataLen - start
      ensures mem == old(mem) && mapped == old(mapped)
      ensures brk % PAGE_SIZE == 0 <==> pageTablesRelVirt % PAGE_SIZE == 0
      ensures start as nat + size as nat < U32_LIMIT && start as nat + size as nat <= mem.Length ==> Valid()
    {
      start := Wrap32(pageTablesRelVirt + PAGE_SIZE * 1024);
      var free := Wrap32(dataLen - start);
      size := (free / 2) / PAGE_SIZE * PAGE_SIZE;
      size := if size > PAGE_SIZE * 1024 then PAGE_SIZE * 1024 else size;
      brk := start;
      assert size == HeapSize(free);
      WrapPageAligned(pageTablesRelVirt as nat + HEAP_MAX);
    }

    /**
     * sbrk: grows the heap by increment bytes, a whole number of pages. It halts (ASSERT) when
     * the new break would not lie strictly below the region's end, or when the page source
     * hands out NULL; otherwise it maps one fresh frame per page, zeroes the new bytes and
     * returns the old break. frames are what successive alloc_data_page calls return.
     */
    method Sbrk(increment: u32, frames: seq<u32>) returns (r: u32, halted: bool)
      requires Valid() && increment % PAGE_SIZE == 0 && brk % PAGE_SIZE == 0
      requires brk + increment < U32_LIMIT
      requires increment / PAGE_SIZE <= |frames|
      modifies this, mem
      ensures start == old(start) && size == old(size) && mem == old(mem) && Valid()
      ensures halted <==> !(old(brk) + increment < start + size) || FirstNull(frames[..increment / PAGE_SIZE]) < increment / PAGE_SIZE
      ensures halted ==> brk == old(brk) && mem[..] == old(mem[..])
      ensures old(brk) + increment < start + size ==>
        mapped == MapPages(old(mapped), old(brk), frames[..FirstNull(frames[..increment / PAGE_SIZE])])
      ensures !(old(brk) + increment < start + size) ==> mapped == old(mapped)
      ensures !halted ==> r == old(brk) && brk == old(brk) + increment
      ensures brk % PAGE_SIZE == 0 && (!halted ==> brk < start + size)
      ensures !halted ==> mem[..] == old(mem[..r]) + Common.Fill(0, increment) + old(mem[r + increment..])
    {
      r, halted := 0, false;
      if !(brk + increment < start + size) {
        return 0, true;
      }
      var address := brk;
      var m, stopped := MapFrames(mapped, brk, increment, frames);
      mapped := m;
      if stopped {
        return 0, true;
      }
      brk := brk + increment;
      var _ := Common.Memset(mem, address, 0, increment);
      r := address;
    }
  }

  /**
   * The for loop of sbrk: from virt on, each of the increment / PAGE_SIZE pages is mapped to the
   * next frame from the page source; a NULL frame stops the loop (the ASSERT halts the kernel).
   */
  method MapFrames(m0: map<u32, u32>, virt: u32, increment: u32, frames: seq<u32>) returns (m: map<u32, u32>, stopped: bool)
    requires increment % PAGE_SIZE == 0 && virt + increment < U32_LIMIT
    requires increment / PAGE_SIZE <= |frames|
    ensures stopped <==> FirstNull(frames[..increment / PAGE_SIZE]) < increment / PAGE_SIZE
    ensures m == MapPages(m0, virt, frames[..FirstNull(frames[..increment / PAGE_SIZE])])
  {
    ghost var n := increment / PAGE_SIZE;
    assert n * PAGE_SIZE == increment;
    m := m0;
    var next := 0;
    var i := virt;
    while i < virt + increment
      invariant next <= n <= |frames| && virt <= i <= virt + increment && i == virt + next * PAGE_SIZE
      invariant virt + next * PAGE_SIZE <= U32_LIMIT
      invariant FirstNull(frames[..n]) >= next
      invariant m == MapPages(m0, virt, frames[..next])
      decreases virt + increment - i
    {
      var ptr := frames[next];
      if ptr == NULL {
        FirstNullAt(frames[..n], next);
        assert frames[..next] == frames[..n][..next];
        return m, true;
      }
      assert frames[..next + 1][..next] == frames[..next];
      m := m[i := ptr];
      next := next + 1;
      i := i + PAGE_SIZE;
      FirstNullPast(frames[..n], next);
    }
    assert frames[..n][..n] == frames[..n];
    stopped := false;
  }

  /** A NULL at index k, with none before it, is the first one. */
  lemma FirstNullAt(fs: seq<u32>, k: nat)
    requires k < |fs| && fs[k] == NULL && FirstNull(fs) >= k
    ensures FirstNull(fs) == k
  {
  }

  /** The first NULL lies at or past k when none of the first k frames is NULL. */
  lemma {:induction false} FirstNullPast(fs: seq<u32>, k: nat)
    requires k <= |fs| && forall i :: 0 <= i < k ==> fs[i] != NULL
    ensures FirstNull(fs) >= k
    decreases k
  {
    if k > 0 {
      assert fs[0] != NULL;
      FirstNullPast(fs[1..], k - 1);
    }
  }
}
