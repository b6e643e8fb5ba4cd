// Two-level x86 paging as src/paging.c sets it up: the 32-bit entry format of src/paging.h, the
// split of a linear address into directory and table indexes, the kernel page directory with
// its window of page tables, mmap and munmap, and the decoding of a page-fault error code
// (section 4.3 and 4.7 of the Intel SDM, volume 3A).
module Paging {
  import opened Types
  import opened MemoryManager

  /** Entries in a page table, and page tables in a directory. */
  const ENTRIES: nat := 1024
  /** The bytes one page table maps: 1024 pages of 4 KiB. */
  const TABLE_SPAN: nat := 0x40_0000

  /** The three spare bits of an entry, and the 20-bit frame number in its top bits. */
  type Spare = x: int | 0 <= x < 8
  type Frame = x: int | 0 <= x < 0x10_0000

  /** paging_entry_t: the bit fields of a directory or table entry, lowest bit first. */
  datatype PageEntry = PageEntry(present: bool, rw: bool, user: bool, writeThrough: bool, cacheDisabled: bool,
                                 accessed: bool, dirty: bool, size: bool, global: bool, unused: Spare, address: Frame)

  /** An all-zero entry, as memset leaves it. */
  const EMPTY: PageEntry := PageEntry(false, false, false, false, false, false, false, false, false, 0, 0)

  /** The one-bit flags of an entry, bit 0 first. */
  function FlagBits(e: PageEntry): seq<bool> {
    [e.present, e.rw, e.user, e.writeThrough, e.cacheDisabled, e.accessed, e.dirty, e.size, e.global]
  }

  /** The number whose binary digits, lowest first, are bits: below 2^|bits|. */
  function Pack(bits: seq<bool>): (w: nat)
    ensures w < Pow2(|bits|)
  {
    if bits == [] then 0 else (if bits[0] then 1 else 0) + 2 * Pack(bits[1..])
  }

  /** The low n binary digits of w, lowest first. */
  function Unpack(w: nat, n: nat): (bits: seq<bool>)
    ensures |bits| == n
  {
    if n == 0 then [] else [w % 2 == 1] + Unpack(w / 2, n - 1)
  }

  /** A low digit b and the number x above it. */
  lemma Halve(b: nat, x: nat)
    requires b < 2
    ensures (b + 2 * x) % 2 == b && (b + 2 * x) / 2 == x
  {
  }

  /** Unpacking as many digits as were packed gives the digits back. */
  lemma {:induction false} UnpackPack(bits: seq<bool>)
    ensures Unpack(Pack(bits), |bits|) == bits
  {
    if bits != [] {
      Halve(if bits[0] then 1 else 0, Pack(bits[1..]));
      UnpackPack(bits[1..]);
      assert [bits[0]] + bits[1..] == bits;
    }
  }

  /** Packing the low n digits of a number below 2^n gives the number back. */
  lemma {:induction false} PackUnpack(w: nat, n: nat)
    requires w < Pow2(n)
    ensures Pack(Unpack(w, n)) == w
  {
    if n > 0 {
      PackUnpack(w / 2, n - 1);
      assert ([w % 2 == 1] + Unpack(w / 2, n - 1))[1..] == Unpack(w / 2, n - 1);
    }
  }

  /** The 32-bit word a paging_entry_t occupies: nine flags from bit 0, the spare bits 9..11, the frame in bits 12..31. */
  function EntryWord(e: PageEntry): nat {
    Pack(FlagBits(e)) + 0x200 * e.unused + 0x1000 * e.address
  }

  /** The entry a 32-bit word holds. */
  function EntryOf(w: u32): PageEntry {
    var bits := Unpack(w % 0x200, 9);
    PageEntry(bits[0], bits[1], bits[2], bits[3], bits[4], bits[5], bits[6], bits[7], bits[8], (w / 0x200) % 8, w / 0x1000)
  }

  /** The flags of an entry take its word's low nine bits. */
  lemma FlagsBelow(e: PageEntry)
    ensures Pack(FlagBits(e)) < 0x200
  {
    assert Pow2(9) == 0x200;
  }

  /** Decoding the word of an entry gives the entry back, and the word fits in 32 bits. */
  lemma EntryRoundTrip(e: PageEntry)
    ensures EntryWord(e) < U32_LIMIT && EntryOf(EntryWord(e)) == e
  {
    var w, low := EntryWord(e), Pack(FlagBits(e));
    FlagsBelow(e);
    DivMod(w, 0x200, e.unused + 8 * e.address, low);
    DivMod(e.unused + 8 * e.address, 8, e.address, e.unused);
    DivMod(w, 0x1000, e.address, low + 0x200 * e.unused);
    UnpackPack(FlagBits(e));
  }

  /** Every 32-bit word is the word of the entry it holds. */
  lemma WordRoundTrip(w: u32)
    ensures EntryWord(EntryOf(w)) == w
  {
    var e := EntryOf(w);
    LowBits(w);
    WordSplit(w);
    assert e.unused == (w / 0x200) % 8 && e.address == w / 0x1000;
  }

  /** The flags of the entry a word holds pack back into the word's low nine bits. */
  lemma LowBits(w: u32)
    ensures Pack(FlagBits(EntryOf(w))) == w % 0x200
  {
    var u, e := Unpack(w % 0x200, 9), EntryOf(w);
    assert FlagBits(e) == u by {
      assert FlagBits(e) == [u[0], u[1], u[2], u[3], u[4], u[5], u[6], u[7], u[8]];
    }
    assert w % 0x200 < Pow2(9) by {
      assert Pow2(9) == 0x200;
    }
    PackUnpack(w % 0x200, 9);
  }

  /** A word is its low nine bits, its next three and its top twenty. */
  lemma WordSplit(w: nat)
    ensures w == w % 0x200 + 0x200 * ((w / 0x200) % 8) + 0x1000 * (w / 0x1000)
  {
    var hi := w / 0x200;
    assert w == w % 0x200 + 0x200 * hi;
    assert hi == hi % 8 + 8 * (hi / 8);
    DivMod(w, 0x1000, hi / 8, w % 0x200 + 0x200 * (hi % 8));
  }

  /** Clearing the low 12 bits of an entry's word (value & 0xFFFFF000) leaves its frame's address. */
  lemma FrameAddress(e: PageEntry)
    ensures EntryWord(e) / PAGE_SIZE == e.address
  {
    FlagsBelow(e);
    DivMod(EntryWord(e), 0x1000, e.address, Pack(FlagBits(e)) + 0x200 * e.unused);
  }

  /**
   * set_pt_entry: present, rw and user as given, write-through and caching disabled, every other
   * flag clear, and the frame of address (address >> 12).
   */
  function SetPtEntry(present: bool, rw: bool, user: bool, address: u32): (e: PageEntry)
    ensures e.present == present && e.rw == rw && e.user == user
    ensures e.writeThrough && e.cacheDisabled
    ensures !e.accessed && !e.dirty && !e.size && !e.global && e.unused == 0
    ensures e.address * PAGE_SIZE <= address < e.address * PAGE_SIZE + PAGE_SIZE
  {
    PageEntry(present, rw, user, true, true, false, false, false, false, 0, address / PAGE_SIZE)
  }

  /** The directory index of a linear address: its page number divided by 1024. */
  function TableOf(addr: u32): (t: nat)
    ensures t < ENTRIES
  {
    (addr / PAGE_SIZE) / ENTRIES
  }

  /** The table index of a linear address: its page number modulo 1024. */
  function PageOf(addr: u32): (p: nat)
    ensures p < ENTRIES
  {
    (addr / PAGE_SIZE) % ENTRIES
  }

  /**
   * The directory and table indexes together name the page of addr: 4 MiB times the one plus
   * 4 KiB times the other is addr rounded down to a page, the inverse print_page_info uses.
   */
  lemma SplitRecombines(addr: u32)
    ensures TableOf(addr) * TABLE_SPAN + PageOf(addr) * PAGE_SIZE == addr - addr % PAGE_SIZE
  {
    var n := addr / PAGE_SIZE;
    assert n == TableOf(addr) * ENTRIES + PageOf(addr);
    assert addr == n * PAGE_SIZE + addr % PAGE_SIZE;
  }

  /** Two addresses with the same directory and table indexes lie in the same page. */
  lemma SplitDetermines(a: u32, b: u32)
    requires TableOf(a) == TableOf(b) && PageOf(a) == PageOf(b)
    ensures a / PAGE_SIZE == b / PAGE_SIZE
  {
    SplitRecombines(a);
    SplitRecombines(b);
  }

  /**
   * The directory index init_paging_tables gives the window of page tables: the first 4 MiB
   * boundary at or above top, ceil(top / 4 MiB).
   */
  function WindowIndex(top: u32): (t: nat)
    ensures t * TABLE_SPAN >= top
    ensures t > 0 ==> (t - 1) * TABLE_SPAN < top
  {
    if top % TABLE_SPAN != 0 then top / TABLE_SPAN + 1 else top / TABLE_SPAN
  }

  /**
   * What the globals kernel_page_directory and page_tables_rel_virt_addr keep true, over their
   * values: the directory has 1024 entries and 1024 table pointers; the window (the directory
   * index of the table of page tables) starts at rel in the data segment at base; a page table
   * exists exactly where its pointer is not NULL, and then it has 1024 entries, its pointer is
   * its page in the window and its directory entry is present.
   */
  ghost predicate Shape(entries: seq<PageEntry>, ptrs: seq<u32>, tables: map<nat, seq<PageEntry>>,
                        rel: nat, base: nat, window: nat)
  {
    && |entries| == ENTRIES && |ptrs| == ENTRIES
    && window < ENTRIES && window in tables
    && window * 0x40_0000 == rel + base
    && 0 < rel && rel + 0x40_0000 <= U32_LIMIT
    && (forall t :: t in tables <==> 0 <= t < ENTRIES && ptrs[t] != NULL)
    && (forall t :: t in tables ==> |tables[t]| == ENTRIES && ptrs[t] == WindowPage(rel, t) && entries[t].present)
  }

  /** The frame a linear address translates to, or None when its table or its page is not present. */
  ghost function Lookup(entries: seq<PageEntry>, tables: map<nat, seq<PageEntry>>, v: u32): Option<nat> {
    var t, p := TableOf(v), PageOf(v);
    if t in tables && t < |entries| && entries[t].present && p < |tables[t]| && tables[t][p].present
    then Some(tables[t][p].address) else None
  }

  /** The window maps the page of every page table to the frame the directory gives that table. */
  ghost predicate Agrees(entries: seq<PageEntry>, tables: map<nat, seq<PageEntry>>, window: nat) {
    forall t :: t in tables ==>
      && window in tables && t < |tables[window]| && t < |entries|
      && tables[window][t].present && tables[window][t].address == entries[t].address
  }

  /** The page tables once table t is created from the page at phys: entered in the window, and zeroed. */
  function Created(tables: map<nat, seq<PageEntry>>, window: nat, t: nat, phys: u32): map<nat, seq<PageEntry>>
    requires window in tables && t < |tables[window]|
  {
    tables[window := tables[window][t := SetPtEntry(true, true, false, phys)]][t := seq(ENTRIES, _ => EMPTY)]
  }

  /** Where the kernel finds page table t: its page in the window that starts at rel. */
  function WindowPage(rel: nat, t: nat): nat {
    rel + t * 0x1000
  }

  /** The window's index is the directory index of its own first byte. */
  lemma WindowAt(rel: nat, base: nat, window: nat)
    requires window * 0x40_0000 == rel + base
    ensures (rel + base) / TABLE_SPAN == window
  {
    DivMod(rel + base, 0x40_0000, window, 0);
  }

  /** Creating a missing table keeps the shape. */
  lemma CreatedShape(entries: seq<PageEntry>, ptrs: seq<u32>, tables: map<nat, seq<PageEntry>>,
                     rel: nat, base: nat, window: nat, t: nat, phys: u32)
    requires Shape(entries, ptrs, tables, rel, base, window) && t < ENTRIES && t !in tables
    ensures WindowPage(rel, t) < U32_LIMIT
    ensures Shape(entries[t := SetPtEntry(true, true, true, phys)], ptrs[t := WindowPage(rel, t)],
                  Created(tables, window, t, phys), rel, base, window)
  {
    var tables' := Created(tables, window, t, phys);
    var ptrs' := ptrs[t := WindowPage(rel, t)];
    forall k | k in tables'
      ensures 0 <= k < ENTRIES && ptrs'[k] != NULL
    {
    }
  }

  /** Creating table t changes only the translation of the window page that maps table t. */
  lemma CreatedLookup(entries: seq<PageEntry>, tables: map<nat, seq<PageEntry>>, window: nat, t: nat, phys: u32)
    requires window in tables && |tables[window]| == ENTRIES && |entries| == ENTRIES && t < ENTRIES && t !in tables
    ensures forall v: u32 ::
      (Lookup(entries[t := SetPtEntry(true, true, true, phys)], Created(tables, window, t, phys), v) != Lookup(entries, tables, v)
       ==> TableOf(v) == window && PageOf(v) == t)
  {
  }

  /** Creating table t keeps the window in agreement with the directory. */
  lemma CreatedAgrees(entries: seq<PageEntry>, tables: map<nat, seq<PageEntry>>, window: nat, t: nat, phys: u32)
    requires window in tables && |tables[window]| == ENTRIES
    requires |entries| == ENTRIES && t < ENTRIES && t !in tables
    ensures Agrees(entries, tables, window) ==> Agrees(entries[t := SetPtEntry(true, true, true, phys)], Created(tables, window, t, phys), window)
  {
  }

  /** Writing entry p of an existing table t keeps the shape. */
  lemma WrittenShape(entries: seq<PageEntry>, ptrs: seq<u32>, tables: map<nat, seq<PageEntry>>,
                     rel: nat, base: nat, window: nat, t: nat, p: nat, e: PageEntry)
    requires Shape(entries, ptrs, tables, rel, base, window) && t in tables && p < ENTRIES
    ensures Shape(entries, ptrs, tables[t := tables[t][p := e]], rel, base, window)
  {
  }

  /** Writing entry p of table t changes only the translation of the addresses with indexes t and p. */
  lemma WrittenLookup(entries: seq<PageEntry>, tables: map<nat, seq<PageEntry>>, t: nat, p: nat, e: PageEntry)
    requires t in tables && p < |tables[t]|
    ensures forall v: u32 ::
      (Lookup(entries, tables[t := tables[t][p := e]], v) != Lookup(entries, tables, v) ==> TableOf(v) == t && PageOf(v) == p)
  {
  }

  /** Writing an entry of a table other than the window keeps the window in agreement. */
  lemma WrittenAgrees(entries: seq<PageEntry>, tables: map<nat, seq<PageEntry>>, window: nat, t: nat, p: nat, e: PageEntry)
    requires t in tables && p < |tables[t]| && t != window
    ensures Agrees(entries, tables, window) ==> Agrees(entries, tables[t := tables[t][p := e]], window)
  {
  }

  /**
   * The globals kernel_page_directory and page_tables_rel_virt_addr. The directory's two arrays
   * are entries (page_tables, what the processor reads) and ptrs (page_table_ptrs, where the
   * kernel finds each table in its own address space); tables holds the contents of the page
   * tables, by directory index. The table at index window is the table of page tables: its k-th
   * entry maps the page at tablesRel + k * 4096 to page table k.
   */
  class PageDirectory {
    var entries: seq<PageEntry>
    var ptrs: seq<u32>
    var tables: map<nat, seq<PageEntry>>
    var tablesRel: u32
    const dataBase: u32
    const window: nat

    ghost predicate Valid()
      reads this
    {
      Shape(entries, ptrs, tables, tablesRel, dataBase, window)
    }

    /** The window maps the page of every page table to the frame the directory gives it. */
    ghost predicate Coherent()
      reads this
    {
      Agrees(entries, tables, window)
    }

    /** The frame a linear address translates to, or None when its table or page is not present. */
    ghost function Translate(v: u32): Option<nat>
      reads this
    {
      Lookup(entries, tables, v)
    }

    /**
     * init_paging_tables: the directory at dirAddr (two data pages, relative to the data
     * segment at dataBase) is zeroed; the window is placed at the first 4 MiB boundary above
     * the directory; a fresh zeroed page at pttAddr becomes the table of page tables, entered
     * in the directory, in ptrs and in its own slot of itself. The source indexes page_tables
     * by the window's index, so the directory must end below the last 4 MiB.
     */
    constructor (dirAddr: u32, pttAddr: u32, base: u32)
      requires dirAddr + 2 * PAGE_SIZE + base <= (ENTRIES - 1) * TABLE_SPAN
      ensures Valid() && Coherent() && dataBase == base
      ensures window == WindowIndex(dirAddr + 2 * PAGE_SIZE + base)
      ensures tables.Keys == {window} && tables[window] == seq(ENTRIES, _ => EMPTY)[window := entries[window]]
      ensures entries == seq(ENTRIES, _ => EMPTY)[window := SetPtEntry(true, true, false, Wrap32(pttAddr + base))]
      ensures forall v :: Translate(v).Some? <==> TableOf(v) == window && PageOf(v) == window
    {
      var top: u32 := dirAddr + 2 * PAGE_SIZE + base;
      var index := WindowIndex(top);
      var rel := index * TABLE_SPAN - base;
      var e := SetPtEntry(true, true, false, Wrap32(pttAddr + base));
      dataBase := base;
      window := index;
      tablesRel := rel;
      entries := seq(ENTRIES, _ => EMPTY)[index := e];
      ptrs := seq(ENTRIES, _ => NULL)[index := WindowPage(rel, index)];
      tables := map[index := seq(ENTRIES, _ => EMPTY)[index := e]];
    }

    /**
     * get_pt_entry: the slot (directory index, table index) of the entry for virt. When the
     * directory has no table there, either nothing happens and the result is None (make is
     * false), or the data page at pt (from alloc_data_page) becomes that table. Both of the
     * source's branches on is_paging_enabled reach the same table.
     */
    method GetPtEntry(virt: u32, make: bool, pt: u32) returns (slot: Option<(nat, nat)>)
      requires Valid()
      modifies this
      ensures Valid() && tablesRel == old(tablesRel)
      ensures slot.Some? ==> slot == Some((TableOf(virt), PageOf(virt))) && TableOf(virt) in tables
      ensures old(TableOf(virt) in tables) ==> slot.Some? && unchanged(this)
      ensures old(TableOf(virt) !in tables) && !make ==> slot == None && unchanged(this)
      ensures old(TableOf(virt) !in tables) && make ==> var t, phys := TableOf(virt), Wrap32(dataBase + pt);
        && slot.Some? && ptrs == old(ptrs)[t := WindowPage(tablesRel, t)]
        && entries == old(entries)[t := SetPtEntry(true, true, true, phys)]
        && tables == Created(old(tables), window, t, phys)
      ensures forall u: u32 :: Translate(u) != old(Translate(u)) ==>
        old(TableOf(virt) !in tables) && TableOf(u) == window && PageOf(u) == TableOf(virt)
      ensures old(Coherent()) ==> Coherent()
    {
      var t, p := TableOf(virt), PageOf(virt);
      if ptrs[t] != NULL {
        slot := Some((t, p));
      } else if make {
        CreateTable(t, pt);
        slot := Some((t, p));
      } else {
        slot := None;
      }
    }

    /**
     * The creating branch of get_pt_entry: the page at pt becomes page table t, entered in the
     * window as a kernel page, in the directory as a present user page, in ptrs at its place
     * in the window, and zeroed.
     */
    method CreateTable(t: nat, pt: u32)
      requires Valid() && t < ENTRIES && t !in tables
      modifies this
      ensures Valid() && tablesRel == old(tablesRel) && t in tables
      ensures ptrs == old(ptrs)[t := WindowPage(tablesRel, t)]
      ensures entries == old(entries)[t := SetPtEntry(true, true, true, Wrap32(dataBase + pt))]
      ensures window in old(tables) && t < |old(tables)[window]|
      ensures tables == Created(old(tables), window, t, Wrap32(dataBase + pt))
      ensures forall u: u32 :: Translate(u) != old(Translate(u)) ==> TableOf(u) == window && PageOf(u) == t
      ensures old(Coherent()) ==> Coherent()
    {
      var phys := Wrap32(dataBase + pt);
      var pttIndex := (tablesRel + dataBase) / TABLE_SPAN;
      WindowAt(tablesRel, dataBase, window);
      assert pttIndex == window;
      var tables' := Created(tables, window, t, phys);
      var entries' := entries[t := SetPtEntry(true, true, true, phys)];
      var ptrs' := ptrs[t := WindowPage(tablesRel, t)];
      CreatedShape(entries, ptrs, tables, tablesRel, dataBase, window, t, phys);
      CreatedLookup(entries, tables, window, t, phys);
      CreatedAgrees(entries, tables, window, t, phys);
      tables, ptrs, entries := tables', ptrs', entries';
    }

    /**
     * mmap: maps the page of virtRel in segment seg to the frame of physRel in the same
     * segment, present with the given rw and user bits, creating its page table from the page
     * at pt when there is none; it always succeeds. Only that page's translation and, when a
     * table was created, the window page that maps the new table change.
     */
    method Mmap(seg: Segment, virtRel: u32, physRel: u32, rw: bool, user: bool, pt: u32) returns (ok: bool)
      requires Valid()
      modifies this
      ensures Valid() && ok
      ensures var v := Wrap32(virtRel + seg.base);
        && TableOf(v) in tables && tables[TableOf(v)][PageOf(v)] == SetPtEntry(true, rw, user, Wrap32(physRel + seg.base))
        && Translate(v) == Some(Wrap32(physRel + seg.base) / PAGE_SIZE)
      ensures var v := Wrap32(virtRel + seg.base);
        forall u: u32 :: Translate(u) != old(Translate(u)) ==>
          u / PAGE_SIZE == v / PAGE_SIZE || (old(TableOf(v) !in tables) && TableOf(u) == window && PageOf(u) == TableOf(v))
      ensures old(Coherent()) && TableOf(Wrap32(virtRel + seg.base)) != window ==> Coherent()
    {
      var virt := Wrap32(virtRel + seg.base);
      var phys := Wrap32(physRel + seg.base);
      var slot := GetPtEntry(virt, true, pt);
      ok := slot.Some?;
      if ok {
        SetEntry(slot.value.0, slot.value.1, SetPtEntry(true, rw, user, phys));
        forall u: u32 | Translate(u) != old(Translate(u)) && TableOf(u) == TableOf(virt) && PageOf(u) == PageOf(virt)
          ensures u / PAGE_SIZE == virt / PAGE_SIZE
        {
          SplitDetermines(u, virt);
        }
      }
    }

    /**
     * munmap: when the page of virtRel in seg has a page table, its entry becomes not present
     * (rw, user and the frame cleared, write-through and caching disabled) and the result is
     * true; otherwise nothing changes and the result is false. Only that page's translation
     * changes.
     */
    method Munmap(seg: Segment, virtRel: u32) returns (ok: bool)
      requires Valid()
      modifies this
      ensures Valid()
      ensures var v := Wrap32(virtRel + seg.base);
        ok == old(TableOf(v) in tables) && (ok ==> TableOf(v) in tables && tables[TableOf(v)][PageOf(v)] == SetPtEntry(false, false, false, 0))
      ensures !ok ==> unchanged(this)
      ensures Translate(Wrap32(virtRel + seg.base)) == None
      ensures forall u: u32 :: Translate(u) != old(Translate(u)) ==> u / PAGE_SIZE == Wrap32(virtRel + seg.base) / PAGE_SIZE
      ensures old(Coherent()) && TableOf(Wrap32(virtRel + seg.base)) != window ==> Coherent()
    {
      var virt := Wrap32(virtRel + seg.base);
      var slot := GetPtEntry(virt, false, 0);
      ok := slot.Some?;
      if ok {
        SetEntry(slot.value.0, slot.value.1, SetPtEntry(false, false, false, 0));
        forall u: u32 | Translate(u) != old(Translate(u))
          ensures u / PAGE_SIZE == virt / PAGE_SIZE
        {
          SplitDetermines(u, virt);
        }
      }
    }

    /** Writing entry p of page table t through the pointer get_pt_entry returned. */
    method SetEntry(t: nat, p: nat, e: PageEntry)
      requires Valid() && t in tables && p < ENTRIES
      modifies this
      ensures Valid() && entries == old(entries) && ptrs == old(ptrs) && tablesRel == old(tablesRel)
      ensures tables == old(tables)[t := old(tables[t])[p := e]]
      ensures forall u: u32 :: Translate(u) != old(Translate(u)) ==> TableOf(u) == t && PageOf(u) == p
      ensures t != window && old(Coherent()) ==> Coherent()
    {
      WrittenShape(entries, ptrs, tables, tablesRel, dataBase, window, t, p, e);
      WrittenLookup(entries, tables, t, p, e);
      if t != window {
        WrittenAgrees(entries, tables, window, t, p, e);
      }
      tables := tables[t := tables[t][p := e]];
    }
  }

  /** What page_fault_handler reports about a fault: who, reading or writing, and which kind. */
  datatype FaultReport = FaultReport(user: bool, write: bool, protection: bool)

  /** The code page_fault_handler computes, user << 2 + rw << 1 + present, from the error code. */
  function FaultCode(err: u32): (code: nat)
    ensures code < 8
  {
    var present := if err % 2 == 0 then 1 else 0;
    var rw := if (err / 2) % 2 == 1 then 1 else 0;
    var user := if (err / 4) % 2 == 1 then 1 else 0;
    user * 4 + rw * 2 + present
  }

  /**
   * The report the switch on the code prints, as written: code bit 2 selects "User process"
   * rather than "Supervisory process", bit 1 "write" rather than "read", and bit 0 "caused a
   * protection fault" rather than "a non-present page entry".
   */
  function ReportAsWritten(err: u32): FaultReport {
    var code := FaultCode(err);
    FaultReport(code / 4 == 1, (code / 2) % 2 == 1, code % 2 == 1)
  }

  /**
   * The report the error code means (section 4.7 of the Intel SDM, volume 3A): bit 2 set for
   * an access in user mode, bit 1 for a write, bit 0 set for a protection violation and clear
   * for a non-present page.
   */
  function Report(err: u32): (r: FaultReport)
    ensures r.protection <==> err % 2 == 1
    ensures r.write <==> (err / 2) % 2 == 1
    ensures r.user <==> (err / 4) % 2 == 1
  {
    var flags := FaultCode(err);
    FaultReport(flags / 4 == 1, (flags / 2) % 2 == 1, flags % 2 == 0)
  }

  /**
   * The handler as written gets who and what right but always swaps the kind: it calls every
   * non-present fault a protection fault and the other way round, since its present flag is
   * set exactly when the error code's bit 0 is clear.
   */
  lemma ReportSwapped(err: u32)
    ensures ReportAsWritten(err).user == Report(err).user && ReportAsWritten(err).write == Report(err).write
    ensures ReportAsWritten(err).protection == !Report(err).protection
  {
  }

  /**
   * A kernel read of a non-present page (error code 0) selects case 0x1 of the switch, "tried to
   * read a page and caused a protection fault", where the error code means case 0x0.
   */
  lemma NonPresentReadMisreported()
    ensures FaultCode(0) == 1 && ReportAsWritten(0) == FaultReport(false, false, true)
    ensures Report(0) == FaultReport(false, false, false)
  {
  }
}
