// Bit operations over a byte-array bitmap (src/kbitmap.c). Bit `num` lives in byte num / 8,
// at position num % 8 counted from the least significant bit.
module KBitmap {
  import opened Types

  /** first_clear_bit's "-1": the u32int all-ones value. */
  const NOT_FOUND: u32 := 0xFFFF_FFFF

  /** bitmap_in_bytes: the least number of bytes that hold `size` bits. */
  function BitmapInBytes(size: u32): (bytes: nat)
    ensures 8 * bytes >= size
    ensures bytes > 0 ==> 8 * (bytes - 1) < size
  {
    if size % 8 != 0 then size / 8 + 1 else size / 8
  }

  /** The mask 1 << k for a bit position k of a byte. */
  function Mask(k: nat): u8
    requires k < 8
  {
    (1 as u8) << k
  }

  /** test_bit: whether bit `num` of the bitmap is set. */
  predicate TestBit(bitmap: seq<u8>, num: nat)
    requires num / 8 < |bitmap|
  {
    bitmap[num / 8] & Mask(num % 8) != 0
  }

  /** Every bit below n is set. */
  ghost predicate AllSetBelow(bitmap: seq<u8>, n: nat)
    requires n <= 8 * |bitmap|
  {
    forall j :: 0 <= j < n ==> TestBit(bitmap, j)
  }

  /** Setting or clearing one bit of a byte touches no other bit of it. */
  lemma MaskOneBit(b: u8, k: nat, m: nat)
    requires k < 8 && m < 8
    ensures (b | Mask(k)) & Mask(m) != 0 <==> k == m || b & Mask(m) != 0
    ensures (b & !Mask(k)) & Mask(m) != 0 <==> k != m && b & Mask(m) != 0
  {
  }

  /** Byte b with bit k set (`|= 1 << k`) or cleared (`&= ~(1 << k)`). */
  function SetByte(b: u8, k: nat, v: bool): u8
    requires k < 8
  {
    if v then b | Mask(k) else b & !Mask(k)
  }

  lemma WithBitAt(bitmap: seq<u8>, num: nat, v: bool, j: nat)
    requires num / 8 < |bitmap| && j / 8 < |bitmap|
    ensures TestBit(bitmap[num / 8 := SetByte(bitmap[num / 8], num % 8, v)], j) <==> if j == num then v else TestBit(bitmap, j)
  {
    var r := bitmap[num / 8 := SetByte(bitmap[num / 8], num % 8, v)];
    if j / 8 == num / 8 {
      MaskOneBit(bitmap[num / 8], num % 8, j % 8);
      assert j == 8 * (j / 8) + j % 8 && num == 8 * (num / 8) + num % 8;
      assert r[j / 8] == SetByte(bitmap[num / 8], num % 8, v);
    } else {
      assert r[j / 8] == bitmap[j / 8];
    }
  }

  /** The bitmap after set_bit (v) or clear_bit (!v) of bit num: only that bit changes. */
  function WithBit(bitmap: seq<u8>, num: nat, v: bool): (r: seq<u8>)
    requires num / 8 < |bitmap|
    ensures |r| == |bitmap|
    ensures forall k :: 0 <= k < |r| && k != num / 8 ==> r[k] == bitmap[k]
    ensures TestBit(r, num) == v
    ensures forall j :: 0 <= j < 8 * |r| ==> (TestBit(r, j) <==> if j == num then v else TestBit(bitmap, j))
  {
    var r := bitmap[num / 8 := SetByte(bitmap[num / 8], num % 8, v)];
    forall j | 0 <= j < 8 * |r|
      ensures TestBit(r, j) <==> if j == num then v else TestBit(bitmap, j)
    {
      WithBitAt(bitmap, num, v, j);
    }
    WithBitAt(bitmap, num, v, num);
    r
  }

  /** set_bit: bitmap[num / 8] |= 1 << (num % 8). */
  method SetBit(bitmap: array<u8>, num: u32)
    requires num / 8 < bitmap.Length
    modifies bitmap
    ensures bitmap[..] == WithBit(old(bitmap[..]), num, true)
    ensures TestBit(bitmap[..], num)
  {
    bitmap[num / 8] := bitmap[num / 8] | Mask(num % 8);
  }

  /** clear_bit: bitmap[num / 8] &= ~(1 << (num % 8)). */
  method ClearBit(bitmap: array<u8>, num: u32)
    requires num / 8 < bitmap.Length
    modifies bitmap
    ensures bitmap[..] == WithBit(old(bitmap[..]), num, false)
    ensures !TestBit(bitmap[..], num)
  {
    bitmap[num / 8] := bitmap[num / 8] & !Mask(num % 8);
  }

  /** Bytes [0, n) all 0xff: every bit below 8 * n is set. */
  lemma FullBytesAllSet(bitmap: seq<u8>, n: nat)
    requires n <= |bitmap|
    requires forall o :: 0 <= o < n ==> bitmap[o] == 0xff
    ensures AllSetBelow(bitmap, 8 * n)
  {
    forall j | 0 <= j < 8 * n ensures TestBit(bitmap, j) {
      MaskOneBit(0xff, 0, j % 8);
    }
  }


  /**
   * first_clear_bit as written: the least clear bit in the first bitmap_in_bytes(size) bytes,
   * or NOT_FOUND when all of those bytes are 0xff. The search covers whole bytes, so the
   * index can lie in [size, 8 * bitmap_in_bytes(size)). For sizes above 0xFFFFFFF8 a clear
   * bit at index 0xFFFFFFFF cannot be told apart from NOT_FOUND.
   */
  method FirstClearBit(bitmap: array<u8>, size: u32) returns (r: u32)
    requires BitmapInBytes(size) <= bitmap.Length
    ensures FirstClearResult(bitmap[..], size, r)
  {
    ghost var m := bitmap[..];
    var bytes := if size % 8 != 0 then size / 8 + 1 else size / 8;
    assert bytes == BitmapInBytes(size);
    var offset := 0;
    while offset < bytes
      invariant 0 <= offset <= bytes
      invariant forall o :: 0 <= o < offset ==> m[o] == 0xff
    {
      if bitmap[offset] != 0xff {
        var bit := FirstClearInByte(bitmap[offset]);
        FoundInByte(m, size, offset, bitmap[offset], bit);
        return offset * 8 + bit;
      }
      offset := offset + 1;
    }
    NoneClear(m, size);
    return NOT_FOUND;
  }

  /** bit is the lowest clear bit of byte b. */
  predicate LowestClear(b: u8, bit: nat) {
    bit < 8 && b & Mask(bit) == 0 && forall j :: 0 <= j < bit ==> b & Mask(j) != 0
  }

  /** first_clear_bit's inner loop: the lowest clear bit of a byte that is not 0xff. */
  method FirstClearInByte(b: u8) returns (bit: nat)
    requires b != 0xff
    ensures LowestClear(b, bit)
  {
    bit := 0;
    while bit < 8
      invariant 0 <= bit <= 8
      invariant forall j :: 0 <= j < bit ==> b & Mask(j) != 0
    {
      if b & Mask(bit) == 0 {
        return;
      }
      bit := bit + 1;
    }
    AllBitsFull(b);
  }

  /** The bits below the lowest clear bit of byte offset, together with the full bytes before it. */
  lemma ByteScanned(m: seq<u8>, offset: nat, bit: nat)
    requires offset < |m| && bit < 8 && AllSetBelow(m, 8 * offset)
    requires m[offset] & Mask(bit) == 0
    requires forall j :: 0 <= j < bit ==> m[offset] & Mask(j) != 0
    ensures AllSetBelow(m, 8 * offset + bit) && !TestBit(m, 8 * offset + bit)
  {
    forall k | 8 * offset <= k < 8 * offset + bit ensures TestBit(m, k) {
      assert k / 8 == offset && k % 8 == k - 8 * offset;
    }
    assert (8 * offset + bit) / 8 == offset && (8 * offset + bit) % 8 == bit;
  }

  /** A byte whose eight bits are all set is 0xff. */
  lemma AllBitsFull(b: u8)
    requires forall j :: 0 <= j < 8 ==> b & Mask(j) != 0
    ensures b == 0xff
  {
    assert b & Mask(0) != 0 && b & Mask(1) != 0 && b & Mask(2) != 0 && b & Mask(3) != 0;
    assert b & Mask(4) != 0 && b & Mask(5) != 0 && b & Mask(6) != 0 && b & Mask(7) != 0;
  }

  /** Two bytes that agree on all eight bits are equal. */
  lemma SameBitsSameByte(x: u8, y: u8)
    requires forall j :: 0 <= j < 8 ==> (x & Mask(j) != 0 <==> y & Mask(j) != 0)
    ensures x == y
  {
    assert (x & Mask(0) != 0 <==> y & Mask(0) != 0) && (x & Mask(1) != 0 <==> y & Mask(1) != 0);
    assert (x & Mask(2) != 0 <==> y & Mask(2) != 0) && (x & Mask(3) != 0 <==> y & Mask(3) != 0);
    assert (x & Mask(4) != 0 <==> y & Mask(4) != 0) && (x & Mask(5) != 0 <==> y & Mask(5) != 0);
    assert (x & Mask(6) != 0 <==> y & Mask(6) != 0) && (x & Mask(7) != 0 <==> y & Mask(7) != 0);
  }

  /** A bitmap is determined by its bits: two of one length that test alike are equal. */
  lemma SameBitsSameBitmap(a: seq<u8>, b: seq<u8>)
    requires |a| == |b|
    requires forall j :: 0 <= j < 8 * |a| ==> (TestBit(a, j) <==> TestBit(b, j))
    ensures a == b
  {
    forall o | 0 <= o < |a| ensures a[o] == b[o] {
      forall k | 0 <= k < 8 ensures a[o] & Mask(k) != 0 <==> b[o] & Mask(k) != 0 {
        var j := 8 * o + k;
        assert j / 8 == o && j % 8 == k;
        assert TestBit(a, j) <==> TestBit(b, j);
      }
      SameBitsSameByte(a[o], b[o]);
    }
  }

  /**
   * Taking a free page and giving it back restores the bitmap (alloc_page then free_page), and
   * freeing a used page and taking it again does too.
   */
  lemma SetThenClear(b: seq<u8>, num: nat)
    requires num / 8 < |b|
    ensures !TestBit(b, num) ==> WithBit(WithBit(b, num, true), num, false) == b
    ensures TestBit(b, num) ==> WithBit(WithBit(b, num, false), num, true) == b
  {
    if TestBit(b, num) {
      SameBitsSameBitmap(WithBit(WithBit(b, num, false), num, true), b);
    } else {
      SameBitsSameBitmap(WithBit(WithBit(b, num, true), num, false), b);
    }
  }

  /**
   * What first_clear_bit may return on bitmap m: NOT_FOUND when the first bitmap_in_bytes(size)
   * bytes are all 0xff, otherwise the least clear bit in them. NOT_FOUND also names a clear
   * bit 0xFFFFFFFF, the last of a bitmap over 0x1_0000_0000 bits.
   */
  ghost predicate FirstClearResult(m: seq<u8>, size: u32, r: u32)
    requires BitmapInBytes(size) <= |m|
  {
    && (AllSetBelow(m, 8 * BitmapInBytes(size)) ==> r == NOT_FOUND)
    && (r == NOT_FOUND ==> AllSetBelow(m, if 8 * BitmapInBytes(size) > NOT_FOUND then NOT_FOUND else 8 * BitmapInBytes(size)))
    && (r != NOT_FOUND ==> r < 8 * BitmapInBytes(size) && !TestBit(m, r) && AllSetBelow(m, r))
  }

  /** The bytes before offset are full and bit is the lowest clear bit of byte offset. */
  lemma FoundInByte(m: seq<u8>, size: u32, offset: nat, b: u8, bit: nat)
    requires BitmapInBytes(size) <= |m| && offset < BitmapInBytes(size) && m[offset] == b
    requires forall o :: 0 <= o < offset ==> m[o] == 0xff
    requires LowestClear(b, bit)
    ensures offset * 8 + bit < 0x1_0000_0000 && FirstClearResult(m, size, offset * 8 + bit)
  {
    FullBytesAllSet(m, offset);
    ByteScanned(m, offset, bit);
  }

  lemma NoneClear(m: seq<u8>, size: u32)
    requires BitmapInBytes(size) <= |m|
    requires forall o :: 0 <= o < BitmapInBytes(size) ==> m[o] == 0xff
    ensures FirstClearResult(m, size, NOT_FOUND)
  {
    FullBytesAllSet(m, BitmapInBytes(size));
  }

  /**
   * The bitmap [0x01] of one page: the page is in use, yet bit 1 (a padding bit of the last
   * byte) is clear, so first_clear_bit's contract forces the answer 1, which is not < size.
   */
  lemma PaddingBitReported(r: u32)
    ensures BitmapInBytes(1) == 1 && AllSetBelow([0x01], 1)
    ensures !TestBit([0x01], 1) && 1 < 8 * BitmapInBytes(1)
    ensures FirstClearResult([0x01], 1, r) ==> r == 1 && !(r < 1)
  {
    if FirstClearResult([0x01], 1, r) {
      assert !AllSetBelow([0x01], 8) by {
        assert !TestBit([0x01], 1);
      }
      assert r != NOT_FOUND;
      assert TestBit([0x01], 0);
      assert r > 1 ==> TestBit([0x01], 1);
    }
  }

  /** first_clear_bit restricted to the bitmap's own size: NOT_FOUND when bits [0, size) are all set. */
  method FirstClearBitBelow(bitmap: array<u8>, size: u32) returns (r: u32)
    requires BitmapInBytes(size) <= bitmap.Length
    ensures r == NOT_FOUND <==> AllSetBelow(bitmap[..], size)
    ensures r != NOT_FOUND ==> r < size && !TestBit(bitmap[..], r) && AllSetBelow(bitmap[..], r)
  {
    r := FirstClearBit(bitmap, size);
    if r != NOT_FOUND && r >= size {
      r := NOT_FOUND;
    }
  }
}
