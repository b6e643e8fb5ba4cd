// The physical page allocator of src/memory_manager.c: one bitmap of pages per segment
// (code and data), set bits marking pages in use.
module MemoryManager {
  import opened Types
  import opened KBitmap
  import Common

  /** VIDEO_BASE_ADDR and the size of the 80x25 text screen (two bytes a cell), from src/screen.h. */
  const VIDEO_BASE_ADDR: u32 := 0xB8000
  const VIDEO_LEN: u32 := 80 * 25 * 2

  datatype Segment = Segment(base: u32, len: u32)
  datatype SegmentsInfo = SegmentsInfo(code: Segment, data: Segment, video: Segment, moduleSeg: Segment)

  /** Whole pages needed for a bitmap of the given byte count: the ceiling of bytes / PAGE_SIZE. */
  function PagesFor(bytes: nat): (pages: nat)
    ensures pages * PAGE_SIZE >= bytes
    ensures pages > 0 ==> (pages - 1) * PAGE_SIZE < bytes
  {
    if bytes % PAGE_SIZE != 0 then bytes / PAGE_SIZE + 1 else bytes / PAGE_SIZE
  }

  /** Bytes reserved at data_top for the bitmap of a segment of len bytes. */
  function BitmapRegion(len: u32): nat {
    PagesFor(BitmapInBytes(len / PAGE_SIZE)) * PAGE_SIZE
  }

  /**
   * Right after init_memory_bitmap the first free page is the first one past the marked ones,
   * when it lies in the zeroed first page of the bitmap and is not the stack page: the next
   * alloc_data_page returns data_top.
   */
  lemma FirstFreeAfterInit(b: seq<u8>, prior: seq<u8>, used: nat, extra: int)
    requires |b| == |prior| && MarkedFrom(b, prior, used, extra)
    requires used < 8 * PAGE_SIZE && used < 8 * |b| && used != extra
    ensures !TestBit(b, used) && AllSetBelow(b, used)
  {
  }

  /** The region reserved for a bitmap holds every bit of it and is a whole number of pages. */
  lemma RegionHolds(len: u32)
    requires len >= PAGE_SIZE
    ensures BitmapInBytes(len / PAGE_SIZE) <= BitmapRegion(len) && BitmapRegion(len) % PAGE_SIZE == 0
    ensures len / PAGE_SIZE <= 8 * BitmapRegion(len) && (len / PAGE_SIZE - 1) / 8 < BitmapRegion(len)
  {
  }

  /**
   * A bitmap of pages just after init_memory_bitmap: the first PAGE_SIZE bytes were zeroed and
   * then the bits below used and the bit extra were set; beyond the zeroed page the bits are
   * whatever the memory held before (prior).
   */
  ghost predicate MarkedFrom(b: seq<u8>, prior: seq<u8>, used: nat, extra: int)
    requires |b| == |prior|
  {
    forall j :: 0 <= j < 8 * |b| ==>
      (TestBit(b, j) <==> j < used || j == extra || (j >= 8 * PAGE_SIZE && TestBit(prior, j)))
  }

  /** Bitmap b is prior with its first page zeroed (memset of PAGE_SIZE bytes), read bit by bit. */
  ghost predicate ZeroedFrom(b: seq<u8>, prior: seq<u8>)
    requires |b| == |prior|
  {
    forall j :: 0 <= j < 8 * |b| ==> (TestBit(b, j) <==> j >= 8 * PAGE_SIZE && TestBit(prior, j))
  }

  /** Bitmap b is b0 with every bit below count set. */
  ghost predicate SetBelow(b: seq<u8>, b0: seq<u8>, count: nat)
    requires |b| == |b0|
  {
    forall j :: 0 <= j < 8 * |b| ==> (TestBit(b, j) <==> j < count || TestBit(b0, j))
  }

  class MemoryManager {
    var initialized: bool
    var segments: SegmentsInfo
    var codeBitmap: array<u8>
    var dataBitmap: array<u8>
    var codeSize: u32
    var dataSize: u32
    /** data_top_address: the first byte of the data segment not taken by the kernel's data. */
    var dataTop: u32

    /**
     * The bitmaps hold their pages' bits. They are one array when the code segment is shorter
     * than a page: both are then placed at the same data_top.
     */
    ghost predicate Valid()
      reads this
    {
      && codeSize <= 0x10_0000 && dataSize <= 0x10_0000
      && (codeBitmap == dataBitmap ==> codeSize == 0)
      && (initialized ==>
            && dataSize >= 1 && codeBitmap.Length >= 1 && dataBitmap.Length >= 1
            && BitmapInBytes(codeSize) <= codeBitmap.Length
            && BitmapInBytes(dataSize) <= dataBitmap.Length
            && dataTop % PAGE_SIZE == 0)
    }

    /** The state before init_memory_manager: no bitmaps, data_top at the end of the kernel's data. */
    constructor (kernelDataEnd: u32)
      ensures Valid() && !initialized && dataTop == kernelDataEnd
    {
      initialized := false;
      segments := SegmentsInfo(Segment(0, 0), Segment(0, 0), Segment(0, 0), Segment(0, 0));
      codeBitmap := new u8[0];
      dataBitmap := new u8[0];
      codeSize, dataSize := 0, 0;
      dataTop := kernelDataEnd;
    }

    /** Size in pages of the bitmap that bitmap points to, chosen by comparing it with code_bitmap. */
    function SizeOf(bitmap: array<u8>): u32
      reads this
    {
      if bitmap == codeBitmap then codeSize else dataSize
    }

    /** init_segments_info: records the three given segments and the fixed text-mode video segment. */
    method InitSegmentsInfo(codeBase: u32, codeLen: u32, dataBase: u32, dataLen: u32, moduleBase: u32, moduleLen: u32)
      modifies this
      ensures segments == SegmentsInfo(Segment(codeBase, codeLen), Segment(dataBase, dataLen),
                                       Segment(VIDEO_BASE_ADDR, VIDEO_LEN), Segment(moduleBase, moduleLen))
      ensures initialized == old(initialized) && dataTop == old(dataTop)
      ensures codeBitmap == old(codeBitmap) && dataBitmap == old(dataBitmap)
      ensures codeSize == old(codeSize) && dataSize == old(dataSize)
    {
      segments := SegmentsInfo(Segment(codeBase, codeLen), Segment(dataBase, dataLen),
                               Segment(VIDEO_BASE_ADDR, VIDEO_LEN), Segment(moduleBase, moduleLen));
    }

    /**
     * init_memory_bitmap: places the code bitmap and then the data bitmap at data_top, moving
     * data_top past the whole pages each takes; zeroes the first page of each; marks used the
     * data pages below the new data_top, the last data page (the stack) and the code pages the
     * kernel's code fills. priorCode and priorData are what the memory held before.
     * A code segment shorter than a page gets a bitmap of no pages, so both bitmaps start at the
     * same data_top and the kernel's code pages are marked in the data bitmap. When one of the
     * set_bit calls would land past the pages reserved for its bitmap (Overrun), the model stops
     * there and changes nothing.
     */
    method InitMemoryBitmap(kernelCodeSize: u32, priorCode: seq<u8>, priorData: seq<u8>) returns (overrun: bool)
      requires Valid() && !initialized
      requires dataTop % PAGE_SIZE == 0
      requires |priorCode| == BitmapRegion(segments.code.len) && |priorData| == BitmapRegion(segments.data.len)
      requires dataTop as nat + |priorCode| + |priorData| < 0x1_0000_0000
      modifies this
      ensures overrun <==> Overrun(old(segments.code.len), old(segments.data.len), old(dataTop), kernelCodeSize)
      ensures overrun ==> unchanged(this)
      ensures !overrun ==> Valid() && initialized && fresh(dataBitmap) && segments == old(segments)
      ensures !overrun ==> codeSize == segments.code.len / PAGE_SIZE && dataSize == segments.data.len / PAGE_SIZE
      ensures !overrun ==> dataBitmap.Length == |priorData| && dataTop == old(dataTop) + |priorCode| + |priorData|
      ensures !overrun && codeSize > 0 ==>
        && fresh(codeBitmap) && codeBitmap != dataBitmap && codeBitmap.Length == |priorCode|
        && MarkedFrom(dataBitmap[..], priorData, dataTop / PAGE_SIZE, dataSize - 1)
        && MarkedFrom(codeBitmap[..], priorCode, kernelCodeSize / PAGE_SIZE, -1)
      ensures !overrun && codeSize == 0 ==>
        && codeBitmap == dataBitmap
        && MarkedFrom(dataBitmap[..], priorData, Larger(dataTop / PAGE_SIZE, kernelCodeSize / PAGE_SIZE), dataSize - 1)
    {
      if Overrun(segments.code.len, segments.data.len, dataTop, kernelCodeSize) {
        return true;
      }
      overrun := false;
      NoOverrunFacts(segments.code.len, segments.data.len, dataTop, kernelCodeSize);
      var codePages := segments.code.len / PAGE_SIZE;
      var dataPages := segments.data.len / PAGE_SIZE;
      if codePages == 0 {
        var db, top := BuildSharedBitmap(segments.data.len, dataTop, kernelCodeSize, priorData);
        ghost var d := db[..];
        codeBitmap, codeSize := db, 0;
        dataBitmap, dataSize := db, dataPages;
        dataTop := top;
        assert dataBitmap[..] == d;
      } else {
        var cb, db, top := BuildBitmaps(segments.code.len, segments.data.len, dataTop, kernelCodeSize, priorCode, priorData);
        ghost var d, c := db[..], cb[..];
        codeBitmap, codeSize := cb, codePages;
        dataBitmap, dataSize := db, dataPages;
        dataTop := top;
        assert dataBitmap[..] == d && codeBitmap[..] == c;
      }
      initialized := true;
    }

    /** init_memory_manager: the segments, then the bitmaps, with init_memory_bitmap's outcomes. */
    method InitMemoryManager(codeBase: u32, codeLen: u32, dataBase: u32, dataLen: u32, moduleBase: u32, moduleLen: u32,
                             kernelCodeSize: u32, priorCode: seq<u8>, priorData: seq<u8>) returns (overrun: bool)
      requires Valid() && !initialized && dataTop % PAGE_SIZE == 0
      requires |priorCode| == BitmapRegion(codeLen) && |priorData| == BitmapRegion(dataLen)
      requires dataTop as nat + |priorCode| + |priorData| < 0x1_0000_0000
      modifies this
      ensures segments == SegmentsInfo(Segment(codeBase, codeLen), Segment(dataBase, dataLen),
                                       Segment(VIDEO_BASE_ADDR, VIDEO_LEN), Segment(moduleBase, moduleLen))
      ensures overrun <==> Overrun(codeLen, dataLen, old(dataTop), kernelCodeSize)
      ensures overrun ==> !initialized && dataTop == old(dataTop)
      ensures !overrun ==> Valid() && initialized
      ensures !overrun ==> codeSize == codeLen / PAGE_SIZE && dataSize == dataLen / PAGE_SIZE
      ensures !overrun ==> dataBitmap.Length == |priorData| && dataTop == old(dataTop) + |priorCode| + |priorData|
      ensures !overrun && codeSize > 0 ==>
        && codeBitmap != dataBitmap && codeBitmap.Length == |priorCode|
        && MarkedFrom(dataBitmap[..], priorData, dataTop / PAGE_SIZE, dataSize - 1)
        && MarkedFrom(codeBitmap[..], priorCode, kernelCodeSize / PAGE_SIZE, -1)
      ensures !overrun && codeSize == 0 ==>
        && codeBitmap == dataBitmap
        && MarkedFrom(dataBitmap[..], priorData, Larger(dataTop / PAGE_SIZE, kernelCodeSize / PAGE_SIZE), dataSize - 1)
    {
      InitSegmentsInfo(codeBase, codeLen, dataBase, dataLen, moduleBase, moduleLen);
      overrun := InitMemoryBitmap(kernelCodeSize, priorCode, priorData);
    }

    /**
     * alloc_page: before initialisation NULL. Otherwise the first clear bit of the bitmap is set
     * and its page's relative address returned; NULL when every byte of the bitmap is full.
     * When the only clear bits are padding bits past the bitmap's size, first_clear_bit returns
     * one of them and the kernel halts at the index ASSERT (halted). Page 0 comes back as
     * address 0, the same value as NULL.
     */
    method AllocPage(bitmap: array<u8>) returns (r: u32, halted: bool)
      requires Valid() && (bitmap == codeBitmap || bitmap == dataBitmap)
      modifies bitmap
      ensures !initialized ==> r == NULL && !halted && bitmap[..] == old(bitmap[..])
      ensures initialized && !AllSetBelow(old(bitmap[..]), SizeOf(bitmap)) ==>
        && !halted && r % PAGE_SIZE == 0 && r / PAGE_SIZE < SizeOf(bitmap)
        && !TestBit(old(bitmap[..]), r / PAGE_SIZE) && AllSetBelow(old(bitmap[..]), r / PAGE_SIZE)
        && bitmap[..] == WithBit(old(bitmap[..]), r / PAGE_SIZE, true)
      ensures initialized && AllSetBelow(old(bitmap[..]), 8 * BitmapInBytes(SizeOf(bitmap))) ==>
        r == NULL && !halted && bitmap[..] == old(bitmap[..])
      ensures halted <==> initialized && AllSetBelow(old(bitmap[..]), SizeOf(bitmap)) && !AllSetBelow(old(bitmap[..]), 8 * BitmapInBytes(SizeOf(bitmap)))
      ensures halted ==> bitmap[..] == old(bitmap[..])
      ensures initialized && !halted && !TestBit(old(bitmap[..]), 0) ==> r == NULL
    {
      r, halted := 0, false;
      if initialized {
        var size := if bitmap == codeBitmap then codeSize else dataSize;
        var index := FirstClearBit(bitmap, size);
        if index != NOT_FOUND {
          if !(index < size) {
            BelowSizeAllSet(bitmap[..], size, index);
            return 0, true;
          }
          ClearBelowSize(bitmap[..], size, index);
          SetBit(bitmap, index);
          r := index * PAGE_SIZE;
          assert r / PAGE_SIZE == index;
        } else {
          NotFoundAllSet(bitmap[..], size);
        }
      }
    }

    /**
     * free_page: for an initialised bitmap and a page index below its size, clears the page's
     * bit and returns TRUE; otherwise FALSE and nothing changes. A page that is already free
     * is cleared again without complaint.
     */
    method FreePage(relAddress: u32, bitmap: array<u8>) returns (ok: bool)
      requires Valid() && (bitmap == codeBitmap || bitmap == dataBitmap)
      requires relAddress % PAGE_SIZE == 0
      modifies bitmap
      ensures ok <==> initialized && relAddress / PAGE_SIZE < SizeOf(bitmap)
      ensures ok ==> bitmap[..] == WithBit(old(bitmap[..]), relAddress / PAGE_SIZE, false)
      ensures !ok ==> bitmap[..] == old(bitmap[..])
    {
      if initialized {
        var index := relAddress / PAGE_SIZE;
        var size := if bitmap == codeBitmap then codeSize else dataSize;
        if index < size {
          ClearBit(bitmap, index);
          return true;
        }
      }
      return false;
    }

    /** alloc_code_page: alloc_page on the code bitmap, with the same outcomes. */
    method AllocCodePage() returns (r: u32, halted: bool)
      requires Valid()
      modifies codeBitmap
      ensures !initialized ==> r == NULL && !halted && codeBitmap[..] == old(codeBitmap[..])
      ensures initialized && !AllSetBelow(old(codeBitmap[..]), codeSize) ==>
        && !halted && r % PAGE_SIZE == 0 && r / PAGE_SIZE < codeSize
        && !TestBit(old(codeBitmap[..]), r / PAGE_SIZE) && AllSetBelow(old(codeBitmap[..]), r / PAGE_SIZE)
        && codeBitmap[..] == WithBit(old(codeBitmap[..]), r / PAGE_SIZE, true)
      ensures initialized && AllSetBelow(old(codeBitmap[..]), 8 * BitmapInBytes(codeSize)) ==>
        r == NULL && !halted && codeBitmap[..] == old(codeBitmap[..])
      ensures halted <==> initialized && AllSetBelow(old(codeBitmap[..]), codeSize) && !AllSetBelow(old(codeBitmap[..]), 8 * BitmapInBytes(codeSize))
      ensures halted ==> codeBitmap[..] == old(codeBitmap[..])
      ensures initialized && !halted && !TestBit(old(codeBitmap[..]), 0) ==> r == NULL
    {
      r, halted := AllocPage(codeBitmap);
    }

    /**
     * alloc_data_page: alloc_page on the data bitmap, with the same outcomes. Its size is what
     * alloc_page reads: code_size when the two bitmaps are one array.
     */
    method AllocDataPage() returns (r: u32, halted: bool)
      requires Valid()
      modifies dataBitmap
      ensures !initialized ==> r == NULL && !halted && dataBitmap[..] == old(dataBitmap[..])
      ensures initialized && !AllSetBelow(old(dataBitmap[..]), SizeOf(dataBitmap)) ==>
        && !halted && r % PAGE_SIZE == 0 && r / PAGE_SIZE < SizeOf(dataBitmap)
        && !TestBit(old(dataBitmap[..]), r / PAGE_SIZE) && AllSetBelow(old(dataBitmap[..]), r / PAGE_SIZE)
        && dataBitmap[..] == WithBit(old(dataBitmap[..]), r / PAGE_SIZE, true)
      ensures initialized && AllSetBelow(old(dataBitmap[..]), 8 * BitmapInBytes(SizeOf(dataBitmap))) ==>
        r == NULL && !halted && dataBitmap[..] == old(dataBitmap[..])
      ensures halted <==> initialized && AllSetBelow(old(dataBitmap[..]), SizeOf(dataBitmap)) && !AllSetBelow(old(dataBitmap[..]), 8 * BitmapInBytes(SizeOf(dataBitmap)))
      ensures halted ==> dataBitmap[..] == old(dataBitmap[..])
      ensures initialized && !halted && !TestBit(old(dataBitmap[..]), 0) ==> r == NULL
    {
      r, halted := AllocPage(dataBitmap);
    }

    method FreeCodePage(relAddress: u32) returns (ok: bool)
      requires Valid() && relAddress % PAGE_SIZE == 0
      modifies codeBitmap
      ensures ok <==> initialized && relAddress / PAGE_SIZE < codeSize
      ensures ok ==> codeBitmap[..] == WithBit(old(codeBitmap[..]), relAddress / PAGE_SIZE, false)
      ensures !ok ==> codeBitmap[..] == old(codeBitmap[..])
    {
      ok := FreePage(relAddress, codeBitmap);
    }

    method FreeDataPage(relAddress: u32) returns (ok: bool)
      requires Valid() && relAddress % PAGE_SIZE == 0
      modifies dataBitmap
      ensures ok <==> initialized && relAddress / PAGE_SIZE < SizeOf(dataBitmap)
      ensures ok ==> dataBitmap[..] == WithBit(old(dataBitmap[..]), relAddress / PAGE_SIZE, false)
      ensures !ok ==> dataBitmap[..] == old(dataBitmap[..])
    {
      ok := FreePage(relAddress, dataBitmap);
    }
  }

  /** The larger of two counts of marked pages. */
  function Larger(a: nat, b: nat): (m: nat)
    ensures m >= a && m >= b && (m == a || m == b)
  {
    if a < b then b else a
  }

  /**
   * Some set_bit of init_memory_bitmap lands past the whole pages reserved for its bitmap: the
   * data segment is shorter than a page (its stack bit is then 0xFFFFFFFF), the used data pages
   * reach past the data bitmap, or the kernel's code pages past the bitmap they are marked in,
   * which is the data bitmap when the code segment is shorter than a page.
   */
  function Overrun(codeLen: u32, dataLen: u32, top0: u32, kernelCodeSize: u32): bool {
    var codeRegion := BitmapRegion(codeLen);
    var dataRegion := BitmapRegion(dataLen);
    var top := top0 as nat + codeRegion + dataRegion;
    || dataLen / PAGE_SIZE == 0
    || top / PAGE_SIZE > 8 * dataRegion
    || kernelCodeSize / PAGE_SIZE > 8 * (if codeLen / PAGE_SIZE == 0 then dataRegion else codeRegion)
  }

  /** A data segment shorter than a page always overruns: its stack bit is bit 0xFFFFFFFF. */
  lemma ShortDataOverruns(codeLen: u32, dataLen: u32, top0: u32, kernelCodeSize: u32)
    requires dataLen < PAGE_SIZE
    ensures Overrun(codeLen, dataLen, top0, kernelCodeSize)
    ensures Wrap32(dataLen / PAGE_SIZE - 1) == 0xFFFF_FFFF && 0xFFFF_FFFF / 8 >= BitmapRegion(dataLen)
  {
  }

  /**
   * Segments of at least a page, a data_top that stays inside the data segment and kernel code
   * that fits its segment never overrun.
   */
  lemma NoOverrunWhenSized(codeLen: u32, dataLen: u32, top0: u32, kernelCodeSize: u32)
    requires codeLen >= PAGE_SIZE && dataLen >= PAGE_SIZE
    requires top0 as nat + BitmapRegion(codeLen) + BitmapRegion(dataLen) <= dataLen as nat
    requires kernelCodeSize / PAGE_SIZE <= codeLen / PAGE_SIZE
    ensures !Overrun(codeLen, dataLen, top0, kernelCodeSize)
  {
    RegionHolds(codeLen);
    RegionHolds(dataLen);
  }

  /** What init_memory_bitmap's arithmetic gives when it does not overrun. */
  lemma NoOverrunFacts(codeLen: u32, dataLen: u32, top0: u32, kernelCodeSize: u32)
    requires !Overrun(codeLen, dataLen, top0, kernelCodeSize)
    ensures dataLen >= PAGE_SIZE && dataLen / PAGE_SIZE >= 1
    ensures 1 <= BitmapInBytes(dataLen / PAGE_SIZE) <= BitmapRegion(dataLen) && BitmapRegion(dataLen) % PAGE_SIZE == 0
    ensures codeLen / PAGE_SIZE == 0 ==> BitmapRegion(codeLen) == 0
    ensures codeLen / PAGE_SIZE > 0 ==>
      codeLen >= PAGE_SIZE && 1 <= BitmapInBytes(codeLen / PAGE_SIZE) <= BitmapRegion(codeLen) && BitmapRegion(codeLen) % PAGE_SIZE == 0
  {
    RegionHolds(dataLen);
    if codeLen / PAGE_SIZE > 0 {
      RegionHolds(codeLen);
    }
  }

  /**
   * init_memory_bitmap when the code segment is shorter than a page: the code bitmap takes no
   * pages, so its memset and the data bitmap's both zero the page at top0, and the kernel's code
   * pages are marked in the data bitmap after the data pages and the stack page.
   */
  method BuildSharedBitmap(dataLen: u32, top0: u32, kernelCodeSize: u32, priorData: seq<u8>) returns (db: array<u8>, top: u32)
    requires dataLen >= PAGE_SIZE && |priorData| == BitmapRegion(dataLen) && top0 % PAGE_SIZE == 0
    requires top0 as nat + |priorData| < 0x1_0000_0000
    requires (top0 as nat + |priorData|) / PAGE_SIZE <= 8 * |priorData|
    requires kernelCodeSize / PAGE_SIZE <= 8 * |priorData|
    ensures fresh(db) && db.Length == |priorData| && top as nat == top0 as nat + |priorData| && top % PAGE_SIZE == 0
    ensures MarkedFrom(db[..], priorData, Larger(top / PAGE_SIZE, kernelCodeSize / PAGE_SIZE), dataLen / PAGE_SIZE - 1)
  {
    RegionHolds(dataLen);
    var dataPages := dataLen / PAGE_SIZE;
    var dataRegionPages;
    db, dataRegionPages := CreateBitmap(dataPages, priorData);
    top := top0 + PAGE_SIZE * dataRegionPages;
    MarkDataPages(db, priorData, top / PAGE_SIZE, dataPages - 1);
    ghost var b1 := db[..];
    MarkUsed(db, kernelCodeSize / PAGE_SIZE);
    MergeMarks(db[..], b1, priorData, top / PAGE_SIZE, kernelCodeSize / PAGE_SIZE, dataPages - 1);
  }

  /** The kernel's code pages marked on top of the data marks of a shared bitmap. */
  lemma MergeMarks(b: seq<u8>, b1: seq<u8>, prior: seq<u8>, used: nat, more: nat, extra: int)
    requires |b| == |b1| == |prior|
    requires MarkedFrom(b1, prior, used, extra) && SetBelow(b, b1, more)
    ensures MarkedFrom(b, prior, Larger(used, more), extra)
  {
  }

  /**
   * The work of init_memory_bitmap on the bitmaps themselves: the code bitmap and then the data
   * bitmap placed from top0 on, each with its first page zeroed; then the data pages below the
   * new top, the stack page and the kernel's code pages marked used.
   */
  method BuildBitmaps(codeLen: u32, dataLen: u32, top0: u32, kernelCodeSize: u32, priorCode: seq<u8>, priorData: seq<u8>)
    returns (cb: array<u8>, db: array<u8>, top: u32)
    requires codeLen >= PAGE_SIZE && dataLen >= PAGE_SIZE
    requires |priorCode| == BitmapRegion(codeLen) && |priorData| == BitmapRegion(dataLen)
    requires top0 % PAGE_SIZE == 0 && top0 as nat + |priorCode| + |priorData| < 0x1_0000_0000
    requires (top0 as nat + |priorCode| + |priorData|) / PAGE_SIZE <= 8 * |priorData|
    requires kernelCodeSize / PAGE_SIZE <= 8 * |priorCode|
    ensures fresh(cb) && fresh(db) && cb != db
    ensures cb.Length == |priorCode| && db.Length == |priorData|
    ensures top == top0 + |priorCode| + |priorData| && top % PAGE_SIZE == 0
    ensures MarkedFrom(db[..], priorData, top / PAGE_SIZE, dataLen / PAGE_SIZE - 1)
    ensures MarkedFrom(cb[..], priorCode, kernelCodeSize / PAGE_SIZE, -1)
  {
    RegionHolds(codeLen);
    RegionHolds(dataLen);
    var codePages := codeLen / PAGE_SIZE;
    var codeRegionPages;
    cb, codeRegionPages := CreateBitmap(codePages, priorCode);
    top := top0 + PAGE_SIZE * codeRegionPages;
    var dataPages := dataLen / PAGE_SIZE;
    var dataRegionPages;
    db, dataRegionPages := CreateBitmap(dataPages, priorData);
    top := top + PAGE_SIZE * dataRegionPages;
    MarkDataPages(db, priorData, top / PAGE_SIZE, dataPages - 1);
    MarkCodePages(cb, priorCode, kernelCodeSize / PAGE_SIZE);
  }

  /**
   * One bitmap of init_memory_bitmap: the whole pages that a bitmap of pagesCount bits takes,
   * placed over memory that held prior, with its first page zeroed.
   */
  method CreateBitmap(pagesCount: u32, prior: seq<u8>) returns (b: array<u8>, pages: u32)
    requires 1 <= pagesCount <= 0x10_0000
    requires |prior| == PagesFor(BitmapInBytes(pagesCount)) * PAGE_SIZE
    ensures fresh(b) && pages as nat * PAGE_SIZE == |prior| == b.Length
    ensures ZeroedFrom(b[..], prior)
  {
    var bytes := BitmapInBytes(pagesCount);
    pages := if bytes % PAGE_SIZE != 0 then bytes / PAGE_SIZE + 1 else bytes / PAGE_SIZE;
    b := new u8[pages * PAGE_SIZE](i requires 0 <= i < |prior| => prior[i]);
    var _ := Common.Memset(b, 0, 0, PAGE_SIZE);
    ZeroedPage(b[..], prior);
  }

  /** The data half of init_memory_bitmap's marking: the used data pages, then the stack page. */
  method MarkDataPages(b: array<u8>, ghost prior: seq<u8>, used: u32, stackPage: u32)
    requires b.Length == |prior| && ZeroedFrom(b[..], prior)
    requires used <= 8 * b.Length && stackPage / 8 < b.Length
    modifies b
    ensures MarkedFrom(b[..], prior, used, stackPage)
  {
    ghost var b0 := b[..];
    MarkUsed(b, used);
    ghost var b1 := b[..];
    SetBit(b, stackPage);
    AddBit(b[..], b1, b0, prior, used, stackPage);
  }

  /** The code half of init_memory_bitmap's marking: the pages the kernel's code fills. */
  method MarkCodePages(b: array<u8>, ghost prior: seq<u8>, used: u32)
    requires b.Length == |prior| && ZeroedFrom(b[..], prior)
    requires used <= 8 * b.Length
    modifies b
    ensures MarkedFrom(b[..], prior, used, -1)
  {
    ghost var b0 := b[..];
    MarkUsed(b, used);
    NoExtraBit(b[..], b0, prior, used);
  }

  /** The for loops of init_memory_bitmap: set_bit on every index below count. */
  method MarkUsed(bitmap: array<u8>, count: u32)
    requires count <= 8 * bitmap.Length
    modifies bitmap
    ensures SetBelow(bitmap[..], old(bitmap[..]), count)
  {
    ghost var b0 := bitmap[..];
    var index: u32 := 0;
    while index < count
      invariant index <= count
      invariant forall j :: 0 <= j < 8 * bitmap.Length ==> (TestBit(bitmap[..], j) <==> j < index || TestBit(b0, j))
    {
      SetBit(bitmap, index);
      index := index + 1;
    }
  }

  /** After memset of the first page: the bits there are clear, the others are the prior ones. */
  lemma ZeroedPage(b: seq<u8>, prior: seq<u8>)
    requires |b| == |prior| >= PAGE_SIZE
    requires b == [] + Common.Fill(0, PAGE_SIZE) + prior[PAGE_SIZE..]
    ensures ZeroedFrom(b, prior)
  {
    forall j | 0 <= j < 8 * |b| ensures TestBit(b, j) <==> j >= 8 * PAGE_SIZE && TestBit(prior, j) {
      if j < 8 * PAGE_SIZE {
        assert b[j / 8] == 0;
      } else {
        assert b[j / 8] == prior[j / 8];
      }
    }
  }

  /** The data bitmap's last step: the stack page's bit on top of the marked pages. */
  lemma AddBit(b: seq<u8>, b1: seq<u8>, b0: seq<u8>, prior: seq<u8>, used: nat, extra: nat)
    requires |b1| == |b0| == |prior| && extra / 8 < |b1|
    requires ZeroedFrom(b0, prior) && SetBelow(b1, b0, used)
    requires b == WithBit(b1, extra, true)
    ensures MarkedFrom(b, prior, used, extra)
  {
  }

  /** The code bitmap: only the kernel's code pages marked on top of the zeroed page. */
  lemma NoExtraBit(b: seq<u8>, b0: seq<u8>, prior: seq<u8>, used: nat)
    requires |b| == |b0| == |prior|
    requires ZeroedFrom(b0, prior) && SetBelow(b, b0, used)
    ensures MarkedFrom(b, prior, used, -1)
  {
  }

  /** first_clear_bit found a padding bit at or past size: the pages themselves are all used. */
  lemma BelowSizeAllSet(m: seq<u8>, size: u32, idx: u32)
    requires BitmapInBytes(size) <= |m| && FirstClearResult(m, size, idx)
    requires idx != NOT_FOUND && idx >= size
    ensures AllSetBelow(m, size) && !AllSetBelow(m, 8 * BitmapInBytes(size))
  {
    assert !TestBit(m, idx);
  }

  /** first_clear_bit found a page below size: it is the least free page. */
  lemma ClearBelowSize(m: seq<u8>, size: u32, idx: u32)
    requires BitmapInBytes(size) <= |m| && FirstClearResult(m, size, idx)
    requires idx != NOT_FOUND && idx < size
    ensures !AllSetBelow(m, size) && !AllSetBelow(m, 8 * BitmapInBytes(size))
    ensures !TestBit(m, idx) && AllSetBelow(m, idx)
    ensures !TestBit(m, 0) ==> idx == 0
  {
    assert !TestBit(m, idx);
    if idx > 0 {
      assert TestBit(m, 0);
    }
  }

  /** first_clear_bit found nothing in a bitmap of at most 2^20 pages: every byte is full. */
  lemma NotFoundAllSet(m: seq<u8>, size: u32)
    requires size <= 0x10_0000 && BitmapInBytes(size) <= |m| && FirstClearResult(m, size, NOT_FOUND)
    ensures AllSetBelow(m, size) && AllSetBelow(m, 8 * BitmapInBytes(size))
  {
  }
}
