// Size classes of the klmalloc slab allocator (src/alloc.c): which bin a request goes to, the
// cell size of each small bin, how many cells a small page holds and how big a big block is.
module AllocBins {
  import opened Types

  /** NUM_BINS, SMALLEST_BIN_LOG and BIG_BIN of the 32-bit build. */
  const NUM_BINS: nat := 11
  const SMALLEST_BIN_LOG: nat := 2
  const BIG_BIN: nat := NUM_BINS - 1
  /** sizeof(klmalloc_bin_header) and sizeof(klmalloc_big_bin_header) with 4-byte pointers. */
  const SMALL_HEADER: nat := 16
  const BIG_HEADER: nat := 48
  /** The largest request a small bin serves: a cell of 2^(2+9) bytes. */
  const LARGEST_SMALL: nat := 2048

  ghost predicate IsPow2(n: nat) {
    exists k: nat :: Pow2(k) == n
  }

  /** The number of binary digits of n: 32 - __builtin_clzl(n) for a 32-bit n. */
  function BitLength(n: nat): nat {
    if n == 0 then 0 else 1 + BitLength(n / 2)
  }

  /** C's bitwise AND of two non-negative integers. */
  function BitAnd(a: nat, b: nat): nat {
    if a == 0 || b == 0 then 0 else 2 * BitAnd(a / 2, b / 2) + (a % 2) * (b % 2)
  }

  /** __builtin_clzl on a 32-bit long: the zero bits above the highest set bit. */
  function Clz(x: u32): nat
    requires x > 0
  {
    BitLengthBound(x);
    32 - BitLength(x)
  }

  /** klmalloc_adjust_bin: bins up to SMALLEST_BIN_LOG go to bin 0; the rest shift down by three, capped at BIG_BIN. */
  function AdjustBin(bin: u32): (r: nat)
    ensures r <= BIG_BIN
  {
    if bin <= SMALLEST_BIN_LOG then 0
    else if bin - (SMALLEST_BIN_LOG + 1) > BIG_BIN then BIG_BIN
    else bin - (SMALLEST_BIN_LOG + 1)
  }

  /**
   * klmalloc_bin_size: the bit length of size, one more unless size is a power of two
   * (size & (size - 1) is zero exactly then), adjusted. The source never calls it with 0.
   */
  function BinSize(size: u32): (bin: nat)
    requires size > 0
    ensures bin <= BIG_BIN
  {
    var b := 32 - Clz(size);
    var b' := b + if BitAnd(size, size - 1) != 0 then 1 else 0;
    AdjustBin(b')
  }

  /** The cell size of small bin c: 1 << (SMALLEST_BIN_LOG + c). */
  function CellSize(c: nat): (cell: nat)
    requires c < BIG_BIN
    ensures 4 <= cell <= LARGEST_SMALL
  {
    Pow2Values();
    Pow2Mono(2, SMALLEST_BIN_LOG + c);
    Pow2Mono(SMALLEST_BIN_LOG + c, 11);
    Pow2(SMALLEST_BIN_LOG + c)
  }

  /**
   * The index of the last cell of a fresh small page of bin c: the page after its header
   * holds ((PAGE_SIZE - 16) >> (2 + c)) cells, numbered from 0.
   */
  function LastCell(c: nat): nat
    requires c < BIG_BIN
  {
    (PAGE_SIZE - SMALL_HEADER) / CellSize(c) - 1
  }

  /** Pages a big-bin miss asks sbrk for: (size + 48) / PAGE_SIZE + 1, all in u32. */
  function BigPages(size: u32): u32 {
    Wrap32(Wrap32(size + BIG_HEADER) / PAGE_SIZE + 1)
  }

  /** The usable size stored in a fresh big block's header: pages * PAGE_SIZE - 48, in u32. */
  function BigBlockSize(size: u32): u32 {
    Wrap32(BigPages(size) * PAGE_SIZE - BIG_HEADER)
  }

  /**
   * The bytes a big-bin miss takes from sbrk, in whole pages: one page more than the header
   * and the request fill, computed without wrap-around.
   */
  function BigGrowth(size: u32): (bytes: nat)
    ensures bytes % PAGE_SIZE == 0 && bytes / PAGE_SIZE == (size + BIG_HEADER) / PAGE_SIZE + 1
    ensures size + BIG_HEADER < bytes <= size + BIG_HEADER + PAGE_SIZE
  {
    ((size + BIG_HEADER) / PAGE_SIZE + 1) * PAGE_SIZE
  }

  // ---- Properties ----

  lemma BitLengthBound(n: nat)
    requires n < U32_LIMIT
    ensures BitLength(n) <= 32
  {
    BitLengthRange(n);
    if BitLength(n) > 32 {
      Pow2Mono(32, BitLength(n) - 1);
      Pow2Values();
    }
  }

  lemma {:induction false} Pow2Add(a: nat, b: nat)
    ensures Pow2(a + b) == Pow2(a) * Pow2(b)
    decreases a
  {
    if a > 0 {
      Pow2Add(a - 1, b);
    }
  }

  /** The powers of two the allocator's constants are made of. */
  lemma Pow2Values()
    ensures Pow2(2) == 4 && Pow2(11) == 2048 && Pow2(12) == 4096 && Pow2(32) == U32_LIMIT
  {
    assert Pow2(4) == 16;
    Pow2Add(4, 4);
    Pow2Add(8, 4);
    Pow2Add(8, 8);
    Pow2Add(16, 16);
    assert Pow2(11) == Pow2(12) / 2;
  }

  /** A number of bit length k lies in [2^(k-1), 2^k). */
  lemma {:induction false} BitLengthRange(n: nat)
    ensures n < Pow2(BitLength(n))
    ensures n > 0 ==> Pow2(BitLength(n) - 1) <= n
  {
    if n > 0 {
      BitLengthRange(n / 2);
    }
  }

  lemma {:induction false} Pow2Mono(j: nat, k: nat)
    ensures j <= k ==> Pow2(j) <= Pow2(k)
    decreases k
  {
    if j < k {
      Pow2Mono(j, k - 1);
    }
  }

  lemma {:induction false} BitAndSelf(m: nat)
    ensures BitAnd(m, m) == m
  {
    if m > 0 {
      BitAndSelf(m / 2);
      assert (m % 2) * (m % 2) == m % 2;
    }
  }

  /** n & (n - 1) is zero exactly for the powers of two. */
  lemma {:induction false} PowerOfTwoTest(n: nat)
    requires n >= 1
    ensures BitAnd(n, n - 1) == 0 <==> IsPow2(n)
  {
    if n == 1 {
      assert Pow2(0) == 1;
    } else if n % 2 == 0 {
      var m := n / 2;
      assert (n - 1) / 2 == m - 1 && (n - 1) % 2 == 1;
      assert BitAnd(n, n - 1) == 2 * BitAnd(m, m - 1);
      PowerOfTwoTest(m);
      if IsPow2(m) {
        var k: nat :| Pow2(k) == m;
        assert Pow2(k + 1) == n;
      }
      if IsPow2(n) {
        var k: nat :| Pow2(k) == n;
        assert k > 0;
        assert Pow2(k - 1) == m;
      }
    } else {
      var m := n / 2;
      assert (n - 1) / 2 == m && (n - 1) % 2 == 0 && m >= 1;
      BitAndSelf(m);
      assert BitAnd(n, n - 1) == 2 * m;
      forall k: nat ensures Pow2(k) != n {
        Pow2Parity(k);
      }
    }
  }

  lemma Pow2Parity(k: nat)
    ensures Pow2(k) % 2 == if k == 0 then 1 else 0
  {
  }

  /** A power of two of bit length k is exactly 2^(k-1). */
  lemma PowerOfBitLength(n: nat)
    requires n >= 1
    ensures IsPow2(n) ==> n == Pow2(BitLength(n) - 1)
  {
    if IsPow2(n) {
      var k: nat :| Pow2(k) == n;
      BitLengthOfPow2(k);
    }
  }

  lemma {:induction false} BitLengthOfPow2(k: nat)
    ensures BitLength(Pow2(k)) == k + 1
  {
    if k > 0 {
      BitLengthOfPow2(k - 1);
      assert Pow2(k) / 2 == Pow2(k - 1);
    }
  }

  /**
   * A request of 1..2048 bytes goes to a small bin c whose cell 2^(2+c) is the least power of
   * two not below max(size, 4).
   */
  lemma SmallBinFits(size: u32)
    requires 1 <= size <= LARGEST_SMALL
    ensures BinSize(size) < BIG_BIN
    ensures size <= CellSize(BinSize(size))
    ensures BinSize(size) > 0 ==> CellSize(BinSize(size)) / 2 < size
  {
    var k := BitLength(size);
    BitLengthRange(size);
    PowerOfTwoTest(size);
    Pow2Values();
    Pow2Mono(12, k - 1);
    if IsPow2(size) {
      PowerOfBitLength(size);
      SmallBinOf(size, k, k);
    } else {
      Pow2Mono(11, k - 1);
      assert size != Pow2(11) && size != Pow2(k - 1);
      SmallBinOf(size, k, k + 1);
    }
  }

  /** The small-bin case analysis once the adjusted bit count b is known. */
  lemma SmallBinOf(size: u32, k: nat, b: nat)
    requires 1 <= size <= LARGEST_SMALL && k == BitLength(size) && 1 <= k <= 12
    requires b == k + if BitAnd(size, size - 1) != 0 then 1 else 0
    requires Pow2(k - 1) <= size < Pow2(k) && b <= 12
    requires b == k ==> size == Pow2(k - 1)
    requires b == k + 1 ==> size != Pow2(k - 1)
    ensures BinSize(size) < BIG_BIN
    ensures size <= CellSize(BinSize(size))
    ensures BinSize(size) > 0 ==> CellSize(BinSize(size)) / 2 < size
  {
    assert Clz(size) == 32 - k;
    assert BinSize(size) == AdjustBin(b);
    var c := BinSize(size);
    if b <= SMALLEST_BIN_LOG {
      assert c == 0;
      Pow2Mono(k, 2);
      Pow2Values();
    } else {
      assert c == b - 3;
      assert CellSize(c) == Pow2(b - 1);
      if c > 0 {
        assert Pow2(b - 1) == 2 * Pow2(b - 2);
        if b == k + 1 {
          assert Pow2(b - 2) == Pow2(k - 1);
        } else {
          assert Pow2(k - 1) == 2 * Pow2(k - 2);
        }
      }
    }
  }

  /** Every request over 2048 bytes goes to the big bin. */
  lemma BigRequestsBigBin(size: u32)
    requires size > LARGEST_SMALL
    ensures BinSize(size) == BIG_BIN
  {
    var k := BitLength(size);
    BitLengthRange(size);
    Pow2Values();
    Pow2Mono(k, 11);
    PowerOfTwoTest(size);
    PowerOfBitLength(size);
  }

  /**
   * A big-bin miss stores a usable size strictly above the request and at most one page over
   * it, and header plus usable size fill whole pages (when nothing wraps around).
   */
  lemma BigBlockFits(size: u32)
    requires size + BIG_HEADER + PAGE_SIZE < U32_LIMIT
    ensures size < BigBlockSize(size) <= size + PAGE_SIZE
    ensures (BigBlockSize(size) + BIG_HEADER) % PAGE_SIZE == 0
    ensures BigBlockSize(size) + BIG_HEADER == BigPages(size) * PAGE_SIZE == BigGrowth(size)
  {
    var p := (size + BIG_HEADER) / PAGE_SIZE + 1;
    assert BigPages(size) == p;
    assert p * PAGE_SIZE > size + BIG_HEADER;
    assert p * PAGE_SIZE <= size + BIG_HEADER + PAGE_SIZE;
  }

  /**
   * Whenever the growth fits in 32 bits, the source's u32 page count and header size are the
   * unbounded ones: the wrap-around below is the only way the two part.
   */
  lemma BigGrowthAsWritten(size: u32)
    requires BigGrowth(size) < U32_LIMIT
    ensures BigPages(size) as nat * PAGE_SIZE == BigGrowth(size)
    ensures BigBlockSize(size) as nat + BIG_HEADER == BigGrowth(size)
  {
    var p := (size + BIG_HEADER) / PAGE_SIZE + 1;
    assert Wrap32(size + BIG_HEADER) == size + BIG_HEADER;
    assert BigPages(size) == p;
  }

  /**
   * The big-bin miss as written wraps around near 4 GiB. For a request within 48 bytes of it the
   * u32 sum size + 48 is small, one page is taken, and its header promises 4048 usable bytes.
   * For a request from 0xFFFFEFD0 to 0xFFFFFFCF the page count is 2^20, whose byte count wraps to
   * 0: the break does not move and the header promises 0xFFFFFFD0 bytes.
   */
  lemma BigPagesWrap()
    ensures BigPages(0xFFFF_FFF0) == 1 && BigBlockSize(0xFFFF_FFF0) == 4048
    ensures BigGrowth(0xFFFF_FFF0) > 0xFFFF_FFF0
    ensures BigPages(0xFFFF_F000) == 0x10_0000 && Wrap32(BigPages(0xFFFF_F000) as int * PAGE_SIZE) == 0
    ensures BigBlockSize(0xFFFF_F000) == 0xFFFF_FFD0 && BigGrowth(0xFFFF_F000) > 0xFFFF_F000
  {
    assert Wrap32(0xFFFF_FFF0 + BIG_HEADER) == 32;
    assert Wrap32(0xFFFF_F000 + BIG_HEADER) == 0xFFFF_F030;
    assert Wrap32(0x1_0000_0000) == 0;
  }
}
