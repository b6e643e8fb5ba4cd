// Machine types and constants shared by every part of the kernel model.
module Types {
  /** PAGE_SIZE from src/common.h: 4 KiB pages. */
  const PAGE_SIZE: nat := 0x1000
  /** 2^32: every u32int sum in the kernel is taken modulo this. */
  const U32_LIMIT: nat := 0x1_0000_0000
  /** The NULL pointer (address 0). */
  const NULL: nat := 0

  /** u8int / char: one byte of memory. */
  type u8 = bv8
  /** u16int: a 16-bit unsigned field. */
  type u16 = x: int | 0 <= x < 0x1_0000
  /** u32int: a 32-bit unsigned value or address. */
  type u32 = x: int | 0 <= x < 0x1_0000_0000

  /** C's unsigned 32-bit arithmetic: the result of a u32int sum, difference or product. */
  function Wrap32(x: int): u32 {
    x % U32_LIMIT
  }

  /** Round x up to the next multiple of PAGE_SIZE (no wrap-around). */
  function PageRoundUp(x: nat): nat {
    if x % PAGE_SIZE == 0 then x else x - x % PAGE_SIZE + PAGE_SIZE
  }

  /** The byte that C stores for an int argument converted to u8int / char. */
  function ByteOf(c: int): u8 {
    (c % 256) as u8
  }

  /** 2^k. */
  function Pow2(k: nat): (p: nat)
    ensures p >= 1
  {
    if k == 0 then 1 else 2 * Pow2(k - 1)
  }

  /** A nonzero multiple of d is at least d away from zero. */
  lemma MulSign(k: int, d: int)
    requires d > 0
    ensures k >= 1 ==> k * d >= d
    ensures k <= -1 ==> k * d <= -d
  {
    if k >= 1 {
      assert k * d == (k - 1) * d + d;
      assert (k - 1) * d >= 0;
    } else if k <= -1 {
      assert k * d == (k + 1) * d - d;
      assert (k + 1) * d <= 0;
    }
  }

  /** Quotient and remainder are the only q and r with w == q * d + r and 0 <= r < d. */
  lemma DivMod(w: int, d: int, q: int, r: int)
    requires d > 0 && 0 <= r < d && w == q * d + r
    ensures w / d == q && w % d == r
  {
    MulSign(q - w / d, d);
    assert (q - w / d) * d == q * d - (w / d) * d;
  }

  datatype Option<T> = None | Some(value: T)
}
