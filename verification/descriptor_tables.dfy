// The x86 descriptor tables of src/descriptor_tables.c: how a segment descriptor, an interrupt
// gate and the task-state segment are packed field by field, and what init_gdt and init_idt
// leave in the two tables (the layouts of section 3.4.5, 6.11 and 7.2.2 of the Intel SDM,
// volume 3A).
module DescriptorTables {
  import opened Types
  import opened MemoryManager

  const GLOBAL_DESCRIPTOR_COUNT: nat := 20
  const INTERRUPT_DESCRIPTOR_COUNT: nat := 256
  /** sizeof(gdt_entry_t) and sizeof(idt_entry_t): both packed into 8 bytes. */
  const DESCRIPTOR_SIZE: nat := 8
  /** sizeof(tss_entry_t): 25 double words and two words. */
  const TSS_SIZE: u32 := 104
  /** The TSS as a sequence of its 27 fields, prev_tss first and iomap_base last. */
  const TSS_FIELDS: nat := 27
  const ESP0: nat := 1
  const SS0: nat := 2
  /** The selector of the kernel code segment, which every gate names. */
  const KERNEL_CODE_SELECTOR: u16 := 0x08
  /** The selector of the kernel data segment, which the TSS gives as ss0. */
  const KERNEL_DATA_SELECTOR: u16 := 0x10
  /** Vectors 0..31 (processor exceptions) and 32..47 (the remapped IRQs) get a gate each. */
  const HANDLED_VECTORS: nat := 48
  /** The system-call vector. */
  const SYSCALL_VECTOR: nat := 128

  /** A u8int field of a descriptor, taken as the number it holds. */
  type Octet = x: int | 0 <= x < 0x100

  /** gdt_entry_t, in the order of its fields in memory. */
  datatype GdtEntry = GdtEntry(limitLow: u16, baseLow: u16, baseMiddle: Octet, access: Octet, granularity: Octet, baseHigh: Octet)

  /** idt_entry_t, in the order of its fields in memory. */
  datatype IdtEntry = IdtEntry(baseLow: u16, selector: u16, alwaysZero: Octet, flags: Octet, baseHigh: u16)

  /** The flag nibble of a granularity byte (its bits 4..7, gran & 0xF0), as a number 0..15. */
  function Flags(gran: Octet): nat {
    gran / 0x10
  }

  /** gdt_ptr_t and idt_ptr_t: the operand of lgdt and lidt. */
  datatype TablePtr = TablePtr(limit: u16, base: u32)

  const NULL_DESCRIPTOR: GdtEntry := GdtEntry(0, 0, 0, 0, 0, 0)
  const NULL_GATE: IdtEntry := IdtEntry(0, 0, 0, 0, 0)

  /** The 32-bit base the processor reassembles from a descriptor's three base fields. */
  function BaseOf(e: GdtEntry): nat {
    e.baseLow + e.baseMiddle * 0x1_0000 + e.baseHigh * 0x100_0000
  }

  /** The 20-bit limit the processor reassembles from limit_low and the low nibble of granularity. */
  function LimitOf(e: GdtEntry): nat {
    e.limitLow + (e.granularity % 0x10) * 0x1_0000
  }

  /** The handler address the processor reassembles from a gate's two offset fields. */
  function GateBase(g: IdtEntry): nat {
    g.baseLow + g.baseHigh * 0x1_0000
  }

  /**
   * The descriptor set_global_descriptor writes: the base split over three fields, the low 20
   * bits of the limit, the flag nibble of gran and the access byte as given. The source's
   * shifts and masks are written as divisions and remainders by powers of two.
   */
  function GlobalDescriptor(base: u32, limit: u32, access: Octet, gran: Octet): GdtEntry {
    GdtEntry(limit % 0x1_0000, base % 0x1_0000, (base / 0x1_0000) % 0x100, access,
             (limit / 0x1_0000) % 0x10 + Flags(gran) * 0x10, (base / 0x100_0000) % 0x100)
  }

  /**
   * The processor reads back from GlobalDescriptor(base, limit, access, gran) the base, the low
   * 20 bits of the limit, the access byte and the flag nibble of gran.
   */
  lemma GlobalDescriptorDecodes(base: u32, limit: u32, access: Octet, gran: Octet)
    ensures var e := GlobalDescriptor(base, limit, access, gran);
      BaseOf(e) == base && LimitOf(e) == limit % 0x10_0000 && Flags(e.granularity) == Flags(gran) && e.access == access
  {
    BaseSplit(base);
    LimitSplit(limit, Flags(gran));
  }

  /** A 32-bit base is the sum of its low word, its third byte and its top byte. */
  lemma BaseSplit(base: u32)
    ensures base == base % 0x1_0000 + ((base / 0x1_0000) % 0x100) * 0x1_0000 + ((base / 0x100_0000) % 0x100) * 0x100_0000
  {
    var hi := base / 0x1_0000;
    assert base == base % 0x1_0000 + hi * 0x1_0000;
    assert hi == hi % 0x100 + (hi / 0x100) * 0x100;
    assert hi / 0x100 == base / 0x100_0000;
  }

  /** The limit's low word and its fifth nibble, stored beside a flag nibble, give back its low 20 bits. */
  lemma LimitSplit(limit: u32, flags: nat)
    requires flags < 0x10
    ensures limit % 0x1_0000 + (((limit / 0x1_0000) % 0x10 + flags * 0x10) % 0x10) * 0x1_0000 == limit % 0x10_0000
  {
    var nibble := (limit / 0x1_0000) % 0x10;
    assert (nibble + flags * 0x10) % 0x10 == nibble;
    var low := limit % 0x10_0000;
    assert limit == (limit / 0x10_0000) * 0x10_0000 + low;
    assert limit / 0x1_0000 == (limit / 0x10_0000) * 0x10 + low / 0x1_0000;
    assert nibble == low / 0x1_0000;
  }

  /** The gate set_interrupt_gate writes: the handler split over two fields, a zero reserved byte. */
  function InterruptGate(base: u32, selector: u16, flags: Octet): (g: IdtEntry)
    ensures GateBase(g) == base && g.selector == selector && g.alwaysZero == 0 && g.flags == flags
  {
    IdtEntry(base % 0x1_0000, selector, 0, flags, base / 0x1_0000)
  }

  /** Every descriptor is the packing of its own base, limit, access byte and granularity byte. */
  lemma DescriptorRoundTrip(e: GdtEntry)
    ensures BaseOf(e) < U32_LIMIT && LimitOf(e) < 0x10_0000
    ensures GlobalDescriptor(BaseOf(e), LimitOf(e), e.access, e.granularity) == e
  {
    var b := BaseOf(e);
    DivMod(b, 0x1_0000, e.baseMiddle + e.baseHigh * 0x100, e.baseLow);
    DivMod(e.baseMiddle + e.baseHigh * 0x100, 0x100, e.baseHigh, e.baseMiddle);
    DivMod(b, 0x100_0000, e.baseHigh, e.baseLow + e.baseMiddle * 0x1_0000);
    var l := LimitOf(e);
    DivMod(l, 0x1_0000, e.granularity % 0x10, e.limitLow);
    DivMod(e.granularity, 0x10, e.granularity / 0x10, e.granularity % 0x10);
  }

  /** Every gate with a zero reserved byte is the packing of its own handler, selector and flags. */
  lemma GateRoundTrip(g: IdtEntry)
    requires g.alwaysZero == 0
    ensures GateBase(g) < U32_LIMIT && InterruptGate(GateBase(g), g.selector, g.flags) == g
  {
  }

  /**
   * A descriptor is determined by what the processor reads from it: two descriptors with the
   * same base, limit, access byte and flag nibble are the same descriptor.
   */
  lemma DescriptorDetermined(base: u32, limit: u32, access: Octet, gran: Octet, e: GdtEntry)
    requires BaseOf(e) == base && LimitOf(e) == limit % 0x10_0000
    requires Flags(e.granularity) == Flags(gran) && e.access == access
    ensures e == GlobalDescriptor(base, limit, access, gran)
  {
    DescriptorRoundTrip(e);
    GlobalDescriptorDecodes(base, limit, access, gran);
    var d := GlobalDescriptor(base, limit, access, gran);
    assert e.granularity == e.granularity % 0x10 + Flags(gran) * 0x10;
    assert d.granularity == d.granularity % 0x10 + Flags(gran) * 0x10;
    assert BaseOf(d) == BaseOf(e) && LimitOf(d) == LimitOf(e);
    DescriptorRoundTrip(d);
  }

  /** set_global_descriptor: writes the fields of descriptor i of gdt one by one. */
  method SetGlobalDescriptor(gdt: array<GdtEntry>, i: nat, base: u32, limit: u32, access: Octet, gran: Octet)
    requires i < gdt.Length
    modifies gdt
    ensures gdt[..] == old(gdt[..])[i := GlobalDescriptor(base, limit, access, gran)]
  {
    var e := gdt[i];
    e := e.(baseLow := base % 0x1_0000);
    e := e.(baseMiddle := (base / 0x1_0000) % 0x100);
    e := e.(baseHigh := (base / 0x100_0000) % 0x100);
    e := e.(limitLow := limit % 0x1_0000);
    e := e.(granularity := (limit / 0x1_0000) % 0x10);
    e := e.(granularity := e.granularity + Flags(gran) * 0x10);
    e := e.(access := access);
    gdt[i] := e;
  }

  /** set_interrupt_gate: writes the fields of gate i of idt one by one. */
  method SetInterruptGate(idt: array<IdtEntry>, i: nat, base: u32, selector: u16, flags: Octet)
    requires i < idt.Length
    modifies idt
    ensures idt[..] == old(idt[..])[i := InterruptGate(base, selector, flags)]
  {
    var g := idt[i];
    g := g.(baseLow := base % 0x1_0000);
    g := g.(baseHigh := (base / 0x1_0000) % 0x1_0000);
    g := g.(selector := selector);
    g := g.(alwaysZero := 0);
    g := g.(flags := flags);
    idt[i] := g;
  }

  /** The globals of src/descriptor_tables.c: the two tables, their pointers and tss_entry. */
  class Tables {
    var gdt: array<GdtEntry>
    var idt: array<IdtEntry>
    var gdtPtr: TablePtr
    var idtPtr: TablePtr
    var tss: seq<u32>

    /** The zero-initialised globals, before init_descriptor_tables. */
    constructor ()
      ensures gdt.Length == 0 && idt.Length == 0 && tss == seq(TSS_FIELDS, _ => 0)
      ensures gdtPtr == TablePtr(0, 0) && idtPtr == TablePtr(0, 0)
    {
      gdt := new GdtEntry[0];
      idt := new IdtEntry[0];
      gdtPtr, idtPtr := TablePtr(0, 0), TablePtr(0, 0);
      tss := seq(TSS_FIELDS, _ => 0);
    }

    /**
     * set_task_descriptor: descriptor i becomes a 32-bit available TSS (access 0xE9) of
     * sizeof(tss_entry_t) bytes at the linear address of tss_entry (tssAddr, relative to the
     * data segment at dataBase); the TSS is zeroed and then given ss0 and esp0.
     */
    method SetTaskDescriptor(entries: array<GdtEntry>, i: nat, ss0: u16, esp0: u32, tssAddr: u32, dataBase: u32)
      requires i < entries.Length
      modifies entries, this
      ensures gdt == old(gdt) && idt == old(idt) && gdtPtr == old(gdtPtr) && idtPtr == old(idtPtr)
      ensures entries[..] == old(entries[..])[i := TaskDescriptor(Wrap32(tssAddr + dataBase))]
      ensures |tss| == TSS_FIELDS && tss[SS0] == ss0 && tss[ESP0] == esp0
      ensures forall k :: 0 <= k < TSS_FIELDS && k != SS0 && k != ESP0 ==> tss[k] == 0
    {
      var base := Wrap32(tssAddr + dataBase);
      SetGlobalDescriptor(entries, i, base, TSS_SIZE, 0xE9, 0x00);
      tss := seq(TSS_FIELDS, _ => 0);
      tss := tss[SS0 := ss0];
      tss := tss[ESP0 := esp0];
    }

    /** set_kernel_stack_in_tss: esp0 becomes stack and nothing else changes. */
    method SetKernelStackInTss(stack: u32)
      requires |tss| == TSS_FIELDS
      modifies this
      ensures gdt == old(gdt) && idt == old(idt) && gdtPtr == old(gdtPtr) && idtPtr == old(idtPtr)
      ensures |tss| == TSS_FIELDS && tss[ESP0] == stack
      ensures forall k :: 0 <= k < TSS_FIELDS && k != ESP0 ==> tss[k] == old(tss[k])
    {
      tss := tss[ESP0 := stack];
    }

    /**
     * init_gdt, without the lgdt and segment loads: the table lives in the data page at gdtAddr
     * (from alloc_data_page), is zeroed, gets the descriptors of KernelGdt one call each, and
     * gdt_ptr points at it through the data segment's base.
     */
    method InitGdt(gdtAddr: u32, segs: SegmentsInfo, tssAddr: u32)
      modifies this
      ensures fresh(gdt) && idt == old(idt) && idtPtr == old(idtPtr)
      ensures gdt[..] == KernelGdt(segs, Wrap32(tssAddr + segs.data.base))
      ensures gdtPtr == TablePtr((DESCRIPTOR_SIZE * GLOBAL_DESCRIPTOR_COUNT - 1) as u16, Wrap32(gdtAddr + segs.data.base))
      ensures |tss| == TSS_FIELDS && tss[SS0] == KERNEL_DATA_SELECTOR && forall k :: 0 <= k < TSS_FIELDS && k != SS0 ==> tss[k] == 0
    {
      var table := new GdtEntry[GLOBAL_DESCRIPTOR_COUNT](_ => NULL_DESCRIPTOR);
      SetSegmentDescriptors(table, segs);
      SetTaskDescriptor(table, 8, KERNEL_DATA_SELECTOR, 0x0, tssAddr, segs.data.base);
      assert table[..] == KernelSegments(segs) + [TaskDescriptor(Wrap32(tssAddr + segs.data.base))] + table[9..];
      gdt := table;
      gdtPtr := TablePtr((DESCRIPTOR_SIZE * GLOBAL_DESCRIPTOR_COUNT - 1) as u16, Wrap32(gdtAddr + segs.data.base));
    }

    /**
     * init_idt, without the PIC remap and lidt: the table lives in the data page at idtAddr, is
     * zeroed, gets the gates of KernelIdt, and idt_ptr points at it through the data segment's
     * base. The source writes the 48 gates of isr0..isr31 and irq0..irq15 one call each.
     */
    method InitIdt(idtAddr: u32, dataBase: u32, handlers: seq<u32>, syscall: u32)
      requires |handlers| == HANDLED_VECTORS
      modifies this
      ensures fresh(idt) && gdt == old(gdt) && gdtPtr == old(gdtPtr) && tss == old(tss)
      ensures idt[..] == KernelIdt(handlers, syscall)
      ensures idtPtr == TablePtr((DESCRIPTOR_SIZE * INTERRUPT_DESCRIPTOR_COUNT - 1) as u16, Wrap32(idtAddr + dataBase))
    {
      var table := new IdtEntry[INTERRUPT_DESCRIPTOR_COUNT](_ => NULL_GATE);
      for v := 0 to HANDLED_VECTORS
        modifies table
        invariant forall w :: 0 <= w < v ==> table[w] == KernelIdt(handlers, syscall)[w]
        invariant forall w :: v <= w < INTERRUPT_DESCRIPTOR_COUNT ==> table[w] == NULL_GATE
      {
        SetInterruptGate(table, v, handlers[v], KERNEL_CODE_SELECTOR, 0x8E);
      }
      SetInterruptGate(table, SYSCALL_VECTOR, syscall, KERNEL_CODE_SELECTOR, 0xEF);
      idt := table;
      idtPtr := TablePtr((DESCRIPTOR_SIZE * INTERRUPT_DESCRIPTOR_COUNT - 1) as u16, Wrap32(idtAddr + dataBase));
    }
  }

  /**
   * The first eight descriptors init_gdt writes: 0 null; 1 and 2 kernel code and data; 3 and 4
   * user code and data; 5 the video memory; 6 the module segment; 7 the code segment readable
   * as data. Segment lengths are counted in pages (len >> 12), except the video segment's, which
   * is in bytes.
   */
  function KernelSegments(segs: SegmentsInfo): seq<GdtEntry> {
    [ GlobalDescriptor(0, 0, 0, 0),
      GlobalDescriptor(segs.code.base, segs.code.len / PAGE_SIZE, 0x9A, 0xC0),
      GlobalDescriptor(segs.data.base, segs.data.len / PAGE_SIZE, 0x92, 0xC0),
      GlobalDescriptor(segs.code.base, segs.code.len / PAGE_SIZE, 0xFA, 0xC0),
      GlobalDescriptor(segs.data.base, segs.data.len / PAGE_SIZE, 0xF2, 0xC0),
      GlobalDescriptor(segs.video.base, segs.video.len, 0x92, 0x40),
      GlobalDescriptor(segs.moduleSeg.base, segs.moduleSeg.len / PAGE_SIZE, 0x92, 0xC0),
      GlobalDescriptor(segs.code.base, segs.code.len / PAGE_SIZE, 0x92, 0xC0) ]
  }

  /** The descriptor set_task_descriptor writes for a TSS at linear address base. */
  function TaskDescriptor(base: u32): GdtEntry {
    GlobalDescriptor(base, TSS_SIZE, 0xE9, 0x00)
  }

  /** The table init_gdt builds, with the TSS at linear address tssBase; entries 9..19 stay null. */
  function KernelGdt(segs: SegmentsInfo, tssBase: u32): (t: seq<GdtEntry>)
    ensures |t| == GLOBAL_DESCRIPTOR_COUNT
  {
    KernelSegments(segs) + [TaskDescriptor(tssBase)] + seq(GLOBAL_DESCRIPTOR_COUNT - 9, _ => NULL_DESCRIPTOR)
  }

  /** The eight set_global_descriptor calls of init_gdt, on a table of at least nine entries. */
  method SetSegmentDescriptors(table: array<GdtEntry>, segs: SegmentsInfo)
    requires table.Length > 8
    modifies table
    ensures table[..8] == KernelSegments(segs) && table[8..] == old(table[8..])
  {
    SetGlobalDescriptor(table, 0, 0, 0, 0, 0);
    SetGlobalDescriptor(table, 1, segs.code.base, segs.code.len / PAGE_SIZE, 0x9A, 0xC0);
    SetGlobalDescriptor(table, 2, segs.data.base, segs.data.len / PAGE_SIZE, 0x92, 0xC0);
    SetGlobalDescriptor(table, 3, segs.code.base, segs.code.len / PAGE_SIZE, 0xFA, 0xC0);
    SetGlobalDescriptor(table, 4, segs.data.base, segs.data.len / PAGE_SIZE, 0xF2, 0xC0);
    SetGlobalDescriptor(table, 5, segs.video.base, segs.video.len, 0x92, 0x40);
    SetGlobalDescriptor(table, 6, segs.moduleSeg.base, segs.moduleSeg.len / PAGE_SIZE, 0x92, 0xC0);
    SetGlobalDescriptor(table, 7, segs.code.base, segs.code.len / PAGE_SIZE, 0x92, 0xC0);
  }

  /**
   * The interrupt descriptor table init_idt builds: vectors 0..47 are interrupt gates (flags
   * 0x8E) to handlers, vector 128 a gate with flags 0xEF to the system-call stub, the rest empty.
   */
  function KernelIdt(handlers: seq<u32>, syscall: u32): (t: seq<IdtEntry>)
    requires |handlers| == HANDLED_VECTORS
    ensures |t| == INTERRUPT_DESCRIPTOR_COUNT
  {
    seq(INTERRUPT_DESCRIPTOR_COUNT, v requires 0 <= v < INTERRUPT_DESCRIPTOR_COUNT =>
      if v < HANDLED_VECTORS then InterruptGate(handlers[v], KERNEL_CODE_SELECTOR, 0x8E)
      else if v == SYSCALL_VECTOR then InterruptGate(syscall, KERNEL_CODE_SELECTOR, 0xEF)
      else NULL_GATE)
  }

  // The access byte and gate flags as the processor reads them (section 3.4.5 and 6.11 of the
  // Intel SDM, volume 3A): bit 7 present, bits 5..6 the privilege level, then the type.
  function Present(b: Octet): bool { b / 0x80 == 1 }
  function Privilege(b: Octet): nat { (b / 0x20) % 4 }
  /** A code or data descriptor (S bit set) rather than a system one. */
  function IsSegment(access: Octet): bool { (access / 0x10) % 2 == 1 }
  function Executable(access: Octet): bool { (access / 0x8) % 2 == 1 }
  /** Writable for a data segment, readable for a code segment. */
  function ReadWrite(access: Octet): bool { (access / 0x2) % 2 == 1 }
  /** The 4-bit type of a system descriptor or gate. */
  function SystemType(b: Octet): nat { b % 0x10 }
  /** The access byte of a present code segment, readable, of privilege level dpl. */
  predicate Code(access: Octet, dpl: nat) {
    Present(access) && IsSegment(access) && Executable(access) && ReadWrite(access) && Privilege(access) == dpl
  }
  /** The access byte of a present data segment, writable, of privilege level dpl. */
  predicate Data(access: Octet, dpl: nat) {
    Present(access) && IsSegment(access) && !Executable(access) && ReadWrite(access) && Privilege(access) == dpl
  }
  /** A present gate of type kind into handler in the kernel code segment, raisable from ring dpl. */
  predicate Gate(g: IdtEntry, dpl: nat, kind: nat, handler: u32) {
    Present(g.flags) && Privilege(g.flags) == dpl && SystemType(g.flags) == kind
    && GateBase(g) == handler && g.selector == KERNEL_CODE_SELECTOR
  }
  /** The granularity flag: the limit counts 4 KiB pages rather than bytes. */
  function PageGranular(gran: Octet): bool { Flags(gran) / 0x8 == 1 }
  /** The D/B flag: a 32-bit segment. */
  function Wide(gran: Octet): bool { (Flags(gran) / 0x4) % 2 == 1 }

  /**
   * What the access and granularity bytes of KernelSegments mean to the processor: 1 and 3 are
   * readable code, 2, 4, 5, 6 and 7 writable data; 3 and 4 are for ring 3 and the others for
   * ring 0.
   */
  lemma KernelSegmentsRights(segs: SegmentsInfo)
    ensures var t := KernelSegments(segs);
      && Code(t[1].access, 0) && Data(t[2].access, 0) && Code(t[3].access, 3) && Data(t[4].access, 3)
      && Data(t[5].access, 0) && Data(t[6].access, 0) && Data(t[7].access, 0)
  {
    var t := KernelSegments(segs);
    assert t[1].access == 0x9A && t[2].access == 0x92 && t[3].access == 0xFA && t[4].access == 0xF2;
    assert t[5].access == 0x92 && t[6].access == 0x92 && t[7].access == 0x92;
    AccessBytes();
  }

  /**
   * Selector 0 is the null descriptor: set_global_descriptor with a zero base, limit, access
   * byte and granularity writes the same null descriptor the memset left.
   */
  lemma NullDescriptor()
    ensures GlobalDescriptor(0, 0, 0, 0) == NULL_DESCRIPTOR
  {
  }

  /** The four access bytes of init_gdt: ring-0 and ring-3 code (0x9A, 0xFA) and data (0x92, 0xF2). */
  lemma AccessBytes()
    ensures Code(0x9A, 0) && Data(0x92, 0) && Code(0xFA, 3) && Data(0xF2, 3)
  {
  }

  /**
   * Every segment of KernelSegments is 32-bit, and every one but the video segment counts its
   * limit in 4 KiB pages.
   */
  lemma KernelSegmentsGranularity(segs: SegmentsInfo)
    ensures var t := KernelSegments(segs);
      && Wide(t[1].granularity) && Wide(t[2].granularity) && Wide(t[3].granularity) && Wide(t[4].granularity)
      && Wide(t[5].granularity) && Wide(t[6].granularity) && Wide(t[7].granularity)
      && PageGranular(t[1].granularity) && PageGranular(t[2].granularity) && PageGranular(t[3].granularity)
      && PageGranular(t[4].granularity) && !PageGranular(t[5].granularity) && PageGranular(t[6].granularity)
      && PageGranular(t[7].granularity)
  {
    FlagsKept(segs.code.len / PAGE_SIZE, 0xC0);
    FlagsKept(segs.data.len / PAGE_SIZE, 0xC0);
    FlagsKept(segs.video.len, 0x40);
    FlagsKept(segs.moduleSeg.len / PAGE_SIZE, 0xC0);
  }

  /** The granularity byte set_global_descriptor stores keeps the flag nibble it was given. */
  lemma FlagsKept(limit: u32, gran: Octet)
    ensures Flags((limit / 0x1_0000) % 0x10 + Flags(gran) * 0x10) == Flags(gran)
  {
  }

  /** KernelSegments puts each descriptor at the base of the segment it is for. */
  lemma KernelSegmentsBases(segs: SegmentsInfo)
    ensures var t := KernelSegments(segs);
      && BaseOf(t[1]) == BaseOf(t[3]) == BaseOf(t[7]) == segs.code.base
      && BaseOf(t[2]) == BaseOf(t[4]) == segs.data.base
      && BaseOf(t[5]) == segs.video.base && BaseOf(t[6]) == segs.moduleSeg.base
  {
    BaseSplit(segs.code.base);
    BaseSplit(segs.data.base);
    BaseSplit(segs.video.base);
    BaseSplit(segs.moduleSeg.base);
  }

  /**
   * The descriptor set_task_descriptor installs is a present, available 32-bit TSS (a system
   * descriptor of type 9) of DPL 3, at base and exactly sizeof(tss_entry_t) bytes long.
   */
  lemma TaskDescriptorMeaning(base: u32)
    ensures var e := TaskDescriptor(base);
      && Present(e.access) && !IsSegment(e.access) && SystemType(e.access) == 0x9 && Privilege(e.access) == 3
      && BaseOf(e) == base && LimitOf(e) == TSS_SIZE as nat && !PageGranular(e.granularity)
  {
    GlobalDescriptorDecodes(base, TSS_SIZE, 0xE9, 0x00);
  }

  /**
   * What KernelIdt means to the processor: every exception and IRQ vector is a present 32-bit
   * interrupt gate (type 0xE, so interrupts are masked on entry) of ring 0 into the kernel code
   * segment; the system-call vector is a present 32-bit trap gate (type 0xF) that ring 3 may
   * raise; every other vector is not present.
   */
  lemma KernelIdtMeaning(handlers: seq<u32>, syscall: u32)
    requires |handlers| == HANDLED_VECTORS
    ensures var t := KernelIdt(handlers, syscall);
      && (forall v :: 0 <= v < HANDLED_VECTORS ==> Gate(t[v], 0, 0xE, handlers[v]))
      && Gate(t[SYSCALL_VECTOR], 3, 0xF, syscall)
      && (forall v :: HANDLED_VECTORS <= v < INTERRUPT_DESCRIPTOR_COUNT && v != SYSCALL_VECTOR ==> !Present(t[v].flags))
  {
    var t := KernelIdt(handlers, syscall);
    forall v | 0 <= v < HANDLED_VECTORS
      ensures Gate(t[v], 0, 0xE, handlers[v])
    {
      assert t[v] == InterruptGate(handlers[v], KERNEL_CODE_SELECTOR, 0x8E);
    }
    assert t[SYSCALL_VECTOR] == InterruptGate(syscall, KERNEL_CODE_SELECTOR, 0xEF);
  }

  /** The selector every gate names, 0x08, is descriptor 1 of KernelGdt: ring-0 code. */
  lemma GateSelectorIsKernelCode(segs: SegmentsInfo, tssBase: u32)
    ensures var e := KernelGdt(segs, tssBase)[SelectorIndex(KERNEL_CODE_SELECTOR)];
      Code(e.access, 0) && BaseOf(e) == segs.code.base
    ensures var e := KernelGdt(segs, tssBase)[SelectorIndex(KERNEL_DATA_SELECTOR)];
      Data(e.access, 0) && BaseOf(e) == segs.data.base
  {
    KernelSegmentsRights(segs);
    KernelSegmentsBases(segs);
  }

  /** Selector 8 * k names descriptor k: the selectors 0x08..0x40 of init_gdt are entries 1..8. */
  function SelectorIndex(selector: u16): (k: nat)
    ensures selector % DESCRIPTOR_SIZE == 0 ==> k * DESCRIPTOR_SIZE == selector
  {
    selector / DESCRIPTOR_SIZE
  }
}
