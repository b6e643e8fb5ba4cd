// The boot loader of src/loader.c: the gate on the Multiboot information, the scan of the
// Multiboot memory map for the biggest usable chunk, and the split of that chunk into the kernel's
// data and code segments (section 3.3 of the Multiboot Specification 0.6.96 for the formats).
module Loader {
  import opened Types

  /** multiboot_uint64_t. */
  type u64 = x: int | 0 <= x < 0x1_0000_0000_0000_0000

  /** MULTIBOOT_BOOTLOADER_MAGIC: what a Multiboot loader leaves in EAX. */
  const BOOTLOADER_MAGIC: u32 := 0x2BAD_B002
  /** MULTIBOOT_MEMORY_AVAILABLE: the type of a memory-map entry the kernel may use. */
  const MEMORY_AVAILABLE: u32 := 1
  /** sizeof(mmap->size): the size field does not count itself. */
  const SIZE_FIELD: nat := 4

  /** multiboot_memory_map_t: one entry of the memory map. */
  datatype MmapEntry = MmapEntry(size: u32, addr: u64, len: u64, kind: u32)

  /** CHECK_FLAG(flags, bit): bit number bit of flags is set. */
  predicate FlagSet(flags: u32, bit: nat) {
    (flags / Pow2(bit)) % 2 == 1
  }

  /** loader_main goes on only when the memory map is present (flags bit 6) and the magic is right. */
  predicate Boots(flags: u32, magic: u32) {
    FlagSet(flags, 6) && magic == BOOTLOADER_MAGIC
  }

  /**
   * Every entry the walk can read below end is followed by its successor without the cursor
   * wrapping around 2^32; read gives the entry stored at an address.
   */
  ghost predicate NoWrap(read: u32 -> MmapEntry, end: u32) {
    forall a: u32 :: a < end ==> a + read(a).size + SIZE_FIELD < U32_LIMIT
  }

  /**
   * The addresses the memory-map walk visits from cursor: each entry is followed by the next
   * one size + 4 bytes further on, until the cursor reaches end.
   */
  ghost function Walk(read: u32 -> MmapEntry, cursor: nat, end: u32): (visited: seq<u32>)
    requires NoWrap(read, end)
    ensures forall k :: 0 <= k < |visited| ==> cursor <= visited[k] < end
    decreases end - cursor
  {
    if cursor >= end then [] else [cursor as u32] + Walk(read, cursor + read(cursor).size + SIZE_FIELD, end)
  }

  /** The entries stored at the given addresses. */
  ghost function Entries(read: u32 -> MmapEntry, addrs: seq<u32>): (es: seq<MmapEntry>)
    ensures |es| == |addrs| && forall k :: 0 <= k < |addrs| ==> es[k] == read(addrs[k])
  {
    seq(|addrs|, k requires 0 <= k < |addrs| => read(addrs[k]))
  }

  /** The variables of get_biggest_memory_chunk: upper_mem_size, max_len and (by index) max_mmap. */
  datatype ScanState = ScanState(upper: u32, maxLen: u32, best: Option<nat>)

  /**
   * One turn of the scan over entry e at index i: an available entry adds its length to the
   * running total (in 32 bits); it becomes the best when it is longer than max_len and the total
   * differs from mem_upper * 1000 (also in 32 bits); max_len keeps its length cut to 32 bits.
   */
  function Step(s: ScanState, e: MmapEntry, i: nat, memUpper: u32): ScanState {
    if e.kind == MEMORY_AVAILABLE then
      var upper := Wrap32(s.upper + e.len);
      if e.len > s.maxLen && upper != Wrap32(memUpper * 1000) then ScanState(upper, Wrap32(e.len), Some(i))
      else ScanState(upper, s.maxLen, s.best)
    else s
  }

  /** The scan's variables after the entries es, in order. */
  function Scan(es: seq<MmapEntry>, memUpper: u32): (s: ScanState)
    ensures s.best.Some? ==> s.best.value < |es|
  {
    if es == [] then ScanState(0, 0, None) else Step(Scan(es[..|es| - 1], memUpper), es[|es| - 1], |es| - 1, memUpper)
  }

  /** The running 32-bit total of the available lengths in es. */
  function Running(es: seq<MmapEntry>): u32 {
    if es == [] then 0
    else if es[|es| - 1].kind == MEMORY_AVAILABLE then Wrap32(Running(es[..|es| - 1]) + es[|es| - 1].len)
    else Running(es[..|es| - 1])
  }

  /** Entry j may be chosen: it is available and the running total through it is not mem_upper * 1000. */
  predicate Eligible(es: seq<MmapEntry>, j: nat, memUpper: u32)
    requires j < |es|
  {
    es[j].kind == MEMORY_AVAILABLE && Running(es[..j + 1]) != Wrap32(memUpper * 1000)
  }

  /** Every length fits in 32 bits, so that max_len holds it exactly. */
  predicate Narrow(es: seq<MmapEntry>) {
    forall j :: 0 <= j < |es| ==> es[j].len < U32_LIMIT
  }

  /**
   * The scan's variables s account for the entries es: upper is the running total, max_len the
   * length of the best entry (0 with none) and no eligible entry is longer; the best entry is
   * eligible, not empty and strictly longer than every eligible entry before it.
   */
  ghost predicate Summary(es: seq<MmapEntry>, s: ScanState, memUpper: u32) {
    && (s.best.Some? ==> s.best.value < |es|)
    && s.upper == Running(es)
    && s.maxLen == (if s.best.Some? then es[s.best.value].len else 0)
    && (forall j :: 0 <= j < |es| && Eligible(es, j, memUpper) ==> es[j].len <= s.maxLen)
    && (s.best.Some? ==>
          && Eligible(es, s.best.value, memUpper) && es[s.best.value].len > 0
          && forall j :: 0 <= j < s.best.value && Eligible(es, j, memUpper) ==> es[j].len < es[s.best.value].len)
  }

  /** Appending e keeps eligibility of the earlier entries and extends the running total by e. */
  lemma Extend(pre: seq<MmapEntry>, e: MmapEntry, memUpper: u32)
    ensures var es := pre + [e];
      && (forall j :: 0 <= j < |pre| ==> Eligible(es, j, memUpper) == Eligible(pre, j, memUpper))
      && Running(es) == (if e.kind == MEMORY_AVAILABLE then Wrap32(Running(pre) + e.len) else Running(pre))
      && (Eligible(es, |pre|, memUpper) <==> e.kind == MEMORY_AVAILABLE && Running(es) != Wrap32(memUpper * 1000))
  {
    var es := pre + [e];
    assert es[..|pre|] == pre;
    assert es[..|pre| + 1] == es;
    forall j | 0 <= j < |pre|
      ensures Eligible(es, j, memUpper) == Eligible(pre, j, memUpper)
    {
      assert es[..j + 1] == pre[..j + 1];
    }
  }

  /** One step of the scan keeps the summary. */
  lemma StepSummary(pre: seq<MmapEntry>, e: MmapEntry, s0: ScanState, memUpper: u32)
    requires Summary(pre, s0, memUpper) && e.len < U32_LIMIT
    ensures Summary(pre + [e], Step(s0, e, |pre|, memUpper), memUpper)
  {
    Extend(pre, e, memUpper);
    if e.kind == MEMORY_AVAILABLE && e.len > s0.maxLen && Wrap32(s0.upper + e.len) != Wrap32(memUpper * 1000) {
      assert Wrap32(e.len) == e.len;
      Taken(pre, e, s0, memUpper);
    } else {
      Kept(pre, e, s0, memUpper);
    }
  }

  /** The new entry is the longest so far: it becomes the best. */
  lemma Taken(pre: seq<MmapEntry>, e: MmapEntry, s0: ScanState, memUpper: u32)
    requires Summary(pre, s0, memUpper) && e.len < U32_LIMIT
    requires e.kind == MEMORY_AVAILABLE && e.len > s0.maxLen && Wrap32(s0.upper + e.len) != Wrap32(memUpper * 1000)
    ensures Summary(pre + [e], ScanState(Wrap32(s0.upper + e.len), e.len, Some(|pre|)), memUpper)
  {
    var es := pre + [e];
    var n := |pre|;
    Extend(pre, e, memUpper);
    assert es[n] == e;
    forall j | 0 <= j < |es| && Eligible(es, j, memUpper)
      ensures es[j].len <= e.len && (j < n ==> es[j].len < e.len)
    {
      if j < n {
        assert es[j] == pre[j];
      }
    }
  }

  /** The new entry is not longer than max_len, or not eligible: the best stays. */
  lemma Kept(pre: seq<MmapEntry>, e: MmapEntry, s0: ScanState, memUpper: u32)
    requires Summary(pre, s0, memUpper)
    requires !(e.kind == MEMORY_AVAILABLE && e.len > s0.maxLen && Wrap32(s0.upper + e.len) != Wrap32(memUpper * 1000))
    ensures Summary(pre + [e], Step(s0, e, |pre|, memUpper), memUpper)
  {
    var es := pre + [e];
    var n := |pre|;
    Extend(pre, e, memUpper);
    var s := Step(s0, e, n, memUpper);
    assert s.best == s0.best && s.maxLen == s0.maxLen;
    forall j | 0 <= j < |es|
      ensures Eligible(es, j, memUpper) ==> es[j].len <= s.maxLen
      ensures j < n ==> es[j] == pre[j]
    {
    }
  }

  /**
   * What the scan finds, when every length fits in 32 bits: an eligible entry that is strictly
   * longer than every eligible entry before it and at least as long as every eligible entry after
   * it (so the earliest of the longest wins); none when every eligible entry is empty.
   */
  lemma {:induction false} ScanMeaning(es: seq<MmapEntry>, memUpper: u32)
    requires Narrow(es)
    ensures Summary(es, Scan(es, memUpper), memUpper)
    ensures var b := Scan(es, memUpper).best;
      b.Some? ==> && Eligible(es, b.value, memUpper) && es[b.value].len > 0
                  && (forall j :: 0 <= j < b.value && Eligible(es, j, memUpper) ==> es[j].len < es[b.value].len)
                  && (forall j :: b.value < j < |es| && Eligible(es, j, memUpper) ==> es[j].len <= es[b.value].len)
    ensures Scan(es, memUpper).best == None <==> forall j :: 0 <= j < |es| && Eligible(es, j, memUpper) ==> es[j].len == 0
  {
    if es != [] {
      var n := |es| - 1;
      var pre := es[..n];
      assert Narrow(pre);
      ScanMeaning(pre, memUpper);
      assert pre + [es[n]] == es;
      StepSummary(pre, es[n], Scan(pre, memUpper), memUpper);
    }
  }

  /** The address get_biggest_memory_chunk returns for the visited addresses: NULL is None. */
  ghost function Chosen(read: u32 -> MmapEntry, visited: seq<u32>, memUpper: u32): Option<u32> {
    var b := Scan(Entries(read, visited), memUpper).best;
    if b.Some? then Some(visited[b.value]) else None
  }

  /** Scanning one more entry is one more step. */
  lemma ScanAppend(es: seq<MmapEntry>, e: MmapEntry, memUpper: u32)
    ensures Scan(es + [e], memUpper) == Step(Scan(es, memUpper), e, |es|, memUpper)
  {
    assert (es + [e])[..|es|] == es;
  }

  /** The walk from start has visited seen and stands at cursor. */
  ghost predicate Reached(read: u32 -> MmapEntry, start: u32, end: u32, seen: seq<u32>, cursor: nat)
    requires NoWrap(read, end)
  {
    seen + Walk(read, cursor, end) == Walk(read, start, end)
  }

  /** One turn of the walk: the entry at cursor is visited next and scanned next. */
  lemma Advance(read: u32 -> MmapEntry, start: u32, end: u32, seen: seq<u32>, cursor: nat, memUpper: u32)
    requires NoWrap(read, end) && cursor < end && Reached(read, start, end, seen, cursor)
    ensures Reached(read, start, end, seen + [cursor as u32], cursor + read(cursor).size + SIZE_FIELD)
    ensures Scan(Entries(read, seen + [cursor as u32]), memUpper)
      == Step(Scan(Entries(read, seen), memUpper), read(cursor), |seen|, memUpper)
    ensures forall k :: 0 <= k < |seen| ==> (seen + [cursor as u32])[k] == seen[k]
  {
    var rest := Walk(read, cursor + read(cursor).size + SIZE_FIELD, end);
    assert Walk(read, cursor, end) == [cursor as u32] + rest;
    assert seen + ([cursor as u32] + rest) == (seen + [cursor as u32]) + rest;
    assert Entries(read, seen + [cursor as u32]) == Entries(read, seen) + [read(cursor)];
    ScanAppend(Entries(read, seen), read(cursor), memUpper);
  }

  /** A walk that stands at or past the end has visited everything. */
  lemma Arrived(read: u32 -> MmapEntry, start: u32, end: u32, seen: seq<u32>, cursor: nat)
    requires NoWrap(read, end) && cursor >= end && Reached(read, start, end, seen, cursor)
    ensures seen == Walk(read, start, end)
  {
    assert Walk(read, cursor, end) == [];
  }

  /**
   * get_biggest_memory_chunk: walks the memory map at mmapAddr of mmapLength bytes and returns
   * the address of the entry the scan chooses, or None (NULL).
   */
  method GetBiggestMemoryChunk(read: u32 -> MmapEntry, mmapAddr: u32, mmapLength: u32, memUpper: u32)
    returns (chunk: Option<u32>)
    requires NoWrap(read, Wrap32(mmapAddr + mmapLength))
    ensures chunk == Chosen(read, Walk(read, mmapAddr, Wrap32(mmapAddr + mmapLength)), memUpper)
  {
    var end := Wrap32(mmapAddr + mmapLength);
    var upper: u32, maxLen: u32 := 0, 0;
    chunk := None;
    var cursor: nat := mmapAddr;
    ghost var seen: seq<u32> := [];
    ghost var best: Option<nat> := None;
    while cursor < end
      invariant Reached(read, mmapAddr, end, seen, cursor)
      invariant Scan(Entries(read, seen), memUpper) == ScanState(upper, maxLen, best)
      invariant chunk == (if best.Some? then Some(seen[best.value]) else None)
      decreases end - cursor
    {
      var e := read(cursor);
      Advance(read, mmapAddr, end, seen, cursor, memUpper);
      ghost var next := Step(ScanState(upper, maxLen, best), e, |seen|, memUpper);
      if e.kind == MEMORY_AVAILABLE {
        upper := Wrap32(upper + e.len);
        if e.len > maxLen && upper != Wrap32(memUpper * 1000) {
          chunk := Some(cursor as u32);
          best := Some(|seen|);
          maxLen := Wrap32(e.len);
        }
      }
      assert ScanState(upper, maxLen, best) == next;
      seen := seen + [cursor as u32];
      cursor := cursor + e.size + SIZE_FIELD;
    }
    Arrived(read, mmapAddr, end, seen, cursor);
  }

  /**
   * x rounded up to a page as the loader writes it, (x & 0xFFFFF000) + PAGE_SIZE when x is not
   * page aligned, in 32 bits.
   */
  function PageUp32(x: u32): u32 {
    if x % PAGE_SIZE != 0 then Wrap32(x - x % PAGE_SIZE + PAGE_SIZE) else x
  }

  /**
   * PageUp32 gives a page multiple: x itself when x is page aligned, else the next page
   * boundary above x, or 0 when that boundary is 2^32.
   */
  lemma PageUp32Meaning(x: u32)
    ensures PageUp32(x) % PAGE_SIZE == 0
    ensures x % PAGE_SIZE == 0 ==> PageUp32(x) == x
    ensures x % PAGE_SIZE != 0 && x < U32_LIMIT - PAGE_SIZE ==> x < PageUp32(x) < x + PAGE_SIZE
    ensures x % PAGE_SIZE != 0 && x > U32_LIMIT - PAGE_SIZE ==> PageUp32(x) == 0
  {
  }

  /** The first page boundary at or above the module's end, or above the kernel's end when there is no module. */
  function MinLoad(moduleBase: u32, moduleLen: u32, kernelEnd: u32): u32 {
    PageUp32(if moduleLen > 0 then Wrap32(moduleBase + moduleLen) else kernelEnd)
  }

  /** Where the data segment starts and how many bytes of the chunk remain from there. */
  datatype Placement = Placement(base: u32, len: u32)

  /**
   * The chunk's part at or above minLoad: a chunk that starts below minLoad loses the bytes
   * below it; the base and the length are cut to 32 bits.
   */
  function Place(chunk: MmapEntry, minLoad: u32): Placement {
    if chunk.addr < minLoad then Placement(minLoad, Wrap32(chunk.len - (minLoad - chunk.addr)))
    else Placement(Wrap32(chunk.addr), Wrap32(chunk.len))
  }

  /**
   * The data segment starts at the larger of the chunk's address and minLoad; when the chunk
   * reaches past that point (and lies below 4 GiB), the segment ends where the chunk does.
   */
  lemma PlaceMeaning(chunk: MmapEntry, minLoad: u32)
    requires chunk.addr < U32_LIMIT
    ensures Place(chunk, minLoad).base == if chunk.addr < minLoad then minLoad else chunk.addr
    ensures var p := Place(chunk, minLoad);
      p.base <= chunk.addr + chunk.len && chunk.addr + chunk.len < U32_LIMIT ==> p.base + p.len == chunk.addr + chunk.len
  {
  }

  /** The sizes the loader gives the data segment and the code segment out of len bytes. */
  datatype Split = Split(dataLen: u32, codeLen: u32)

  /** Half of len (len >> 1) rounded up to a page for data, the rest for code, in 32 bits. */
  function SplitChunk(len: u32): Split {
    var dataLen := PageUp32(len / 2);
    Split(dataLen, Wrap32(len - dataLen))
  }

  /**
   * The data segment is a whole number of pages holding at least half of len and less than a page
   * more; together the segments take exactly len bytes modulo 2^32, and exactly len bytes when len
   * is at least two pages.
   */
  lemma SplitMeaning(len: u32)
    ensures var s := SplitChunk(len);
      && s.dataLen % PAGE_SIZE == 0 && len / 2 <= s.dataLen < len / 2 + PAGE_SIZE
      && Wrap32(s.dataLen + s.codeLen) == len
      && (len >= 2 * PAGE_SIZE ==> s.dataLen + s.codeLen == len)
  {
    PageUp32Meaning(len / 2);
  }

  /** What loader_main did with the Multiboot information it was given. */
  datatype Boot = Skipped | NoChunk | Booted

  /**
   * The loader's static globals: the bases and lengths of the code, data and module segments
   * (zero before init_segments_parameters runs).
   */
  class BootLoader {
    var codeBase: u32
    var codeLen: u32
    var dataBase: u32
    var dataLen: u32
    var moduleBase: u32
    var moduleLen: u32

    constructor ()
      ensures codeBase == 0 && codeLen == 0 && dataBase == 0 && dataLen == 0 && moduleBase == 0 && moduleLen == 0
    {
      codeBase, codeLen, dataBase, dataLen, moduleBase, moduleLen := 0, 0, 0, 0, 0, 0;
    }

    /**
     * init_segments_parameters: with a module (flags bit 3), its segment is the pages from
     * modStart to modEnd; the data segment starts at the first page at or above the module's end
     * (or the kernel image's end, kernelEnd), inside the chunk; half the chunk's remaining bytes,
     * rounded up to a page, are data and the rest code, right after it.
     */
    method InitSegmentsParameters(flags: u32, modStart: u32, modEnd: u32, chunk: MmapEntry, kernelEnd: u32)
      modifies this
      ensures FlagSet(flags, 3) ==> moduleBase == modStart && moduleLen == PageUp32(Wrap32(modEnd - modStart))
      ensures !FlagSet(flags, 3) ==> moduleBase == old(moduleBase) && moduleLen == old(moduleLen)
      ensures var p := Place(chunk, MinLoad(moduleBase, moduleLen, kernelEnd));
        && dataBase == p.base && dataLen == SplitChunk(p.len).dataLen
        && codeBase == Wrap32(dataBase + dataLen) && codeLen == SplitChunk(p.len).codeLen
    {
      if FlagSet(flags, 3) {
        moduleBase := modStart;
        moduleLen := PageUp32(Wrap32(modEnd - modStart));
      }
      var minLoad := if moduleLen > 0 then Wrap32(moduleBase + moduleLen) else kernelEnd;
      minLoad := PageUp32(minLoad);
      PlaceSegments(chunk, minLoad);
    }

    /** The second half of init_segments_parameters: the data and code segments in the chunk above minLoad. */
    method PlaceSegments(chunk: MmapEntry, minLoad: u32)
      modifies this
      ensures moduleBase == old(moduleBase) && moduleLen == old(moduleLen)
      ensures var p := Place(chunk, minLoad);
        && dataBase == p.base && dataLen == SplitChunk(p.len).dataLen
        && codeBase == Wrap32(dataBase + dataLen) && codeLen == SplitChunk(p.len).codeLen
    {
      var len: u32;
      if chunk.addr < minLoad {
        dataBase := minLoad;
        len := Wrap32(chunk.len - (minLoad - chunk.addr));
      } else {
        dataBase := Wrap32(chunk.addr);
        len := Wrap32(chunk.len);
      }
      assert Placement(dataBase, len) == Place(chunk, minLoad);
      dataLen := len / 2;
      if dataLen % PAGE_SIZE > 0 {
        dataLen := Wrap32(dataLen - dataLen % PAGE_SIZE + PAGE_SIZE);
      }
      codeBase := Wrap32(dataBase + dataLen);
      codeLen := Wrap32(len - dataLen);
    }

    /**
     * loader_main: nothing happens unless Boots(flags, magic); then the biggest chunk is chosen
     * and the segments are laid out in it. The source goes on with a NULL chunk and reads
     * through it; the model stops there instead.
     */
    method LoaderMain(flags: u32, magic: u32, read: u32 -> MmapEntry, mmapAddr: u32, mmapLength: u32, memUpper: u32,
                      modStart: u32, modEnd: u32, kernelEnd: u32) returns (outcome: Boot)
      requires Boots(flags, magic) ==> NoWrap(read, Wrap32(mmapAddr + mmapLength))
      modifies this
      ensures !Boots(flags, magic) ==> outcome == Skipped && unchanged(this)
      ensures Boots(flags, magic) ==>
        var chosen := Chosen(read, Walk(read, mmapAddr, Wrap32(mmapAddr + mmapLength)), memUpper);
        && (chosen.None? ==> outcome == NoChunk && unchanged(this))
        && (chosen.Some? ==> outcome == Booted)
      ensures Boots(flags, magic) ==>
        var chosen := Chosen(read, Walk(read, mmapAddr, Wrap32(mmapAddr + mmapLength)), memUpper);
        chosen.Some? ==>
          && (FlagSet(flags, 3) ==> moduleBase == modStart && moduleLen == PageUp32(Wrap32(modEnd - modStart)))
          && (!FlagSet(flags, 3) ==> moduleBase == old(moduleBase) && moduleLen == old(moduleLen))
          && var p := Place(read(chosen.value), MinLoad(moduleBase, moduleLen, kernelEnd));
          && dataBase == p.base && dataLen == SplitChunk(p.len).dataLen
          && codeBase == Wrap32(dataBase + dataLen) && codeLen == SplitChunk(p.len).codeLen
    {
      if !Boots(flags, magic) {
        return Skipped;
      }
      var chunk := GetBiggestMemoryChunk(read, mmapAddr, mmapLength, memUpper);
      if chunk.None? {
        return NoChunk;
      }
      InitSegmentsParameters(flags, modStart, modEnd, read(chunk.value), kernelEnd);
      outcome := Booted;
    }
  }
}
