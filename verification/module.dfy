// The user-module header check and the module record (src/module.c): init_module reads six
// 32-bit words of the loaded module's header, checks that the code, data and entry point fit the
// module and the two load windows, and records them once.
module KernelModule {
  import opened Types
  import opened MemoryManager

  const MAGIC: u32 := 0xDEAD_BEEF
  /** Where a module's code and data are mapped (src/module_loader.h). */
  const MODULE_CODE_LOAD_ADDR: u32 := 0x40_0000
  const MODULE_DATA_LOAD_ADDR: u32 := 0xC0_0000

  /** The six words at the start of the module image: magic, code offset and size, data offset and size, entry point. */
  datatype Header = Header(magic: u32, codeOffset: u32, codeSize: u32, dataOffset: u32, dataSize: u32, entryPoint: u32)

  /**
   * The acceptance test of init_module exactly as written: every sum and difference is a u32int,
   * so it is taken modulo 2^32 before it is compared.
   */
  predicate AcceptsAsWritten(h: Header, segs: SegmentsInfo) {
    var codeMax := Wrap32(h.codeOffset + h.codeSize);
    var dataMax := Wrap32(h.dataOffset + h.dataSize);
    var entryOffset := Wrap32(h.entryPoint - MODULE_CODE_LOAD_ADDR);
    var freeData := Wrap32(segs.data.len - MODULE_DATA_LOAD_ADDR - PAGE_SIZE);
    var freeCode := Wrap32(segs.code.len - MODULE_CODE_LOAD_ADDR);
    && h.magic == MAGIC
    && h.codeSize > 0
    && codeMax < segs.moduleSeg.len
    && dataMax < segs.moduleSeg.len
    && h.entryPoint > MODULE_CODE_LOAD_ADDR
    && entryOffset < codeMax
    && entryOffset >= h.codeOffset
    && segs.data.len > MODULE_DATA_LOAD_ADDR + PAGE_SIZE
    && segs.code.len > MODULE_CODE_LOAD_ADDR
    && h.codeSize < freeCode
    && h.dataSize < freeData
  }

  /**
   * The acceptance test with the data end computed without wrap-around: the header is accepted
   * as written and its data also ends inside the module image.
   */
  predicate Accepts(h: Header, segs: SegmentsInfo) {
    AcceptsAsWritten(h, segs) && h.dataOffset + h.dataSize < segs.moduleSeg.len
  }

  /**
   * What acceptance means, in unbounded arithmetic: the code and data ranges end inside the
   * module image, the entry point lies in the code range once moved to the code load address,
   * and the code and data fit below the ends of the code and data segments. The entry point
   * must also lie strictly above the code load address, so an entry at the first byte of code
   * that starts at offset 0 is refused.
   */
  predicate Fits(h: Header, segs: SegmentsInfo) {
    && h.magic == MAGIC
    && 0 < h.codeSize
    && h.codeOffset + h.codeSize < segs.moduleSeg.len
    && h.dataOffset + h.dataSize < segs.moduleSeg.len
    && MODULE_CODE_LOAD_ADDR < h.entryPoint
    && MODULE_CODE_LOAD_ADDR + h.codeOffset <= h.entryPoint < MODULE_CODE_LOAD_ADDR + h.codeOffset + h.codeSize
    && MODULE_CODE_LOAD_ADDR + h.codeSize < segs.code.len
    && MODULE_DATA_LOAD_ADDR + PAGE_SIZE + h.dataSize < segs.data.len
  }

  /**
   * As written, the code range cannot wrap: the entry point checks would then ask for an offset
   * both at least code_offset and below the wrapped (smaller) end. So the as-written test
   * guarantees everything about the code and the segments, but not the end of the data.
   */
  lemma AsWrittenCodeFits(h: Header, segs: SegmentsInfo)
    requires AcceptsAsWritten(h, segs)
    ensures h.codeOffset + h.codeSize < segs.moduleSeg.len
    ensures MODULE_CODE_LOAD_ADDR + h.codeOffset <= h.entryPoint < MODULE_CODE_LOAD_ADDR + h.codeOffset + h.codeSize
    ensures MODULE_CODE_LOAD_ADDR + h.codeSize < segs.code.len
    ensures MODULE_DATA_LOAD_ADDR + PAGE_SIZE + h.dataSize < segs.data.len
  {
    assert h.codeOffset + h.codeSize >= U32_LIMIT ==> Wrap32(h.codeOffset + h.codeSize) == h.codeOffset + h.codeSize - U32_LIMIT;
    assert h.codeOffset + h.codeSize < U32_LIMIT ==> Wrap32(h.codeOffset + h.codeSize) == h.codeOffset + h.codeSize;
    assert Wrap32(h.entryPoint - MODULE_CODE_LOAD_ADDR) == h.entryPoint - MODULE_CODE_LOAD_ADDR;
  }

  /**
   * The as-written test accepts a header whose data range wraps past 2^32: data at offset
   * 0xFFFF_F000 of size 0x2000 "ends" at 0x1000, inside a module image of two pages.
   */
  lemma DataWrapAccepted()
    ensures var segs := SegmentsInfo(Segment(0x100_0000, 0x100_0000), Segment(0x200_0000, 0x100_0000),
                                     Segment(0xB_8000, 0x1000), Segment(0x10_0000, 0x2000));
      var h := Header(MAGIC, 0, 0x100, 0xFFFF_F000, 0x2000, 0x40_0000 + 0x10);
      && AcceptsAsWritten(h, segs) && !Fits(h, segs)
  {
    var segs := SegmentsInfo(Segment(0x100_0000, 0x100_0000), Segment(0x200_0000, 0x100_0000),
                             Segment(0xB_8000, 0x1000), Segment(0x10_0000, 0x2000));
    var h := Header(MAGIC, 0, 0x100, 0xFFFF_F000, 0x2000, 0x40_0000 + 0x10);
    assert Wrap32(h.dataOffset + h.dataSize) == 0x1000;
  }

  /** The corrected test accepts exactly the headers that fit. */
  lemma AcceptsIffFits(h: Header, segs: SegmentsInfo)
    ensures Accepts(h, segs) <==> Fits(h, segs)
  {
    if Accepts(h, segs) {
      AsWrittenCodeFits(h, segs);
    }
    if Fits(h, segs) {
      assert Wrap32(h.codeOffset + h.codeSize) == h.codeOffset + h.codeSize;
      assert Wrap32(h.dataOffset + h.dataSize) == h.dataOffset + h.dataSize;
      assert Wrap32(h.entryPoint - MODULE_CODE_LOAD_ADDR) == h.entryPoint - MODULE_CODE_LOAD_ADDR;
      assert Wrap32(segs.data.len - MODULE_DATA_LOAD_ADDR - PAGE_SIZE) == segs.data.len - MODULE_DATA_LOAD_ADDR - PAGE_SIZE;
      assert Wrap32(segs.code.len - MODULE_CODE_LOAD_ADDR) == segs.code.len - MODULE_CODE_LOAD_ADDR;
    }
  }

  /** module_info_t: the record of the one user module. */
  class ModuleInfo {
    var running: bool
    var initialized: bool
    var loaded: bool
    var codeOffset: u32
    var codeSize: u32
    var dataOffset: u32
    var dataSize: u32
    var entryPoint: u32

    /** The record starts zeroed, as a global. */
    constructor ()
      ensures !running && !initialized && !loaded
      ensures codeOffset == 0 && codeSize == 0 && dataOffset == 0 && dataSize == 0 && entryPoint == 0
    {
      running, initialized, loaded := false, false, false;
      codeOffset, codeSize, dataOffset, dataSize, entryPoint := 0, 0, 0, 0, 0;
    }

    /** The header the record holds. */
    function Recorded(): Header
      reads this
    {
      Header(MAGIC, codeOffset, codeSize, dataOffset, dataSize, entryPoint)
    }

    /**
     * init_module, given the header words it reads through %fs: an initialised module is kept
     * and reported ready; otherwise a header that passes the test as written (u32 sums) is
     * recorded, not running, and reported ready; a rejected one changes nothing and is reported
     * not ready. A recorded header's code always fits; its data may wrap past 2^32.
     */
    method InitModule(h: Header, segs: SegmentsInfo) returns (ok: bool)
      modifies this
      ensures old(initialized) ==> ok && unchanged(this)
      ensures !old(initialized) ==> ok == AcceptsAsWritten(h, segs)
      ensures !old(initialized) && ok ==>
        && Recorded() == h && initialized && !running && loaded == old(loaded)
      ensures !old(initialized) && !ok ==> unchanged(this)
      ensures !old(initialized) && ok ==>
        && codeOffset as nat + codeSize as nat < segs.moduleSeg.len as nat
        && MODULE_CODE_LOAD_ADDR as nat + codeOffset as nat <= entryPoint as nat < MODULE_CODE_LOAD_ADDR as nat + codeOffset as nat + codeSize as nat
        && MODULE_CODE_LOAD_ADDR as nat + codeSize as nat < segs.code.len as nat
        && MODULE_DATA_LOAD_ADDR as nat + PAGE_SIZE + dataSize as nat < segs.data.len as nat
    {
      if initialized {
        return true;
      }
      if AcceptsAsWritten(h, segs) {
        AsWrittenCodeFits(h, segs);
        Record(h);
        return true;
      }
      return false;
    }

    /** init_module with the data end checked without wrap-around: exactly the headers that fit are recorded. */
    method InitModuleChecked(h: Header, segs: SegmentsInfo) returns (ok: bool)
      modifies this
      ensures old(initialized) ==> ok && unchanged(this)
      ensures !old(initialized) ==> ok == Fits(h, segs)
      ensures !old(initialized) && ok ==>
        && Recorded() == h && initialized && !running && loaded == old(loaded)
      ensures !old(initialized) && !ok ==> unchanged(this)
    {
      if initialized {
        return true;
      }
      AcceptsIffFits(h, segs);
      if Accepts(h, segs) {
        Record(h);
        return true;
      }
      return false;
    }

    /** The record of an accepted header: its words, not running, initialised. */
    method Record(h: Header)
      requires h.magic == MAGIC
      modifies this
      ensures Recorded() == h && initialized && !running && loaded == old(loaded)
    {
      codeOffset, codeSize, dataOffset, dataSize, entryPoint := h.codeOffset, h.codeSize, h.dataOffset, h.dataSize, h.entryPoint;
      running := false;
      initialized := true;
    }
  }

  /** alloc_module_data_page: not written yet, always NULL. */
  method AllocModuleDataPage() returns (page: u32)
    ensures page == NULL
  {
    page := NULL;
  }

  /** free_module_data_page: not written yet, always FALSE. */
  method FreeModuleDataPage(relAddress: u32) returns (ok: bool)
    ensures !ok
  {
    ok := false;
  }

  /** free_module_alloced_pages: not written yet, always FALSE. */
  method FreeModuleAllocedPages() returns (ok: bool)
    ensures !ok
  {
    ok := false;
  }
}
