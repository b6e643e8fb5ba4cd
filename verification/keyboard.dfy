// The keyboard driver (src/keyboard.c): scan codes of set 1 become ASCII bytes, which the
// interrupt handler appends to a 256-byte key cache and get_keyboard_key takes from its front.
module Keyboard {
  /** An 8-bit character or scan code, as a number. */
  type Byte = x: int | 0 <= x < 0x100

  const KEY_CACHE_SIZE: nat := 256

  /** The bytes of an ASCII string literal. */
  function Ascii(s: string): (r: seq<Byte>)
    requires forall i :: 0 <= i < |s| ==> s[i] as int < 0x100
    ensures |r| == |s| && forall i :: 0 <= i < |s| ==> r[i] == s[i] as int
  {
    seq(|s|, i requires 0 <= i < |s| => s[i] as int)
  }

  const NUM: seq<Byte> := Ascii("123456789")
  const QWERTYUIOP: seq<Byte> := Ascii("qwertyuiop")
  const ASDFGHJKL: seq<Byte> := Ascii("asdfghjkl")
  const ZXCVBNM: seq<Byte> := Ascii("zxcvbnm")

  /**
   * keyboard_to_ascii as written. The top row is looked up for every code from 0x10 to 0x1C, so
   * 0x1A reads the literal's terminating NUL and 0x1B reads the byte stored after the literal,
   * which the model takes as the parameter past.
   */
  function KeyToAsciiAsWritten(key: Byte, past: Byte): Byte {
    if key == 0x1C then '\n' as int
    else if key == 0x39 then ' ' as int
    else if key == 0x0E then '\r' as int
    else if key == 0x34 then '.' as int
    else if key == 0x35 then '/' as int
    else if key == 0x0B then '0' as int
    else if 0x02 <= key <= 0x0B then NUM[key - 0x02]
    else if 0x10 <= key <= 0x1C then (QWERTYUIOP + [0, past])[key - 0x10]
    else if 0x1E <= key <= 0x26 then ASDFGHJKL[key - 0x1E]
    else if 0x2C <= key <= 0x32 then ZXCVBNM[key - 0x2C]
    else 0
  }

  /**
   * The keys keyboard_to_ascii is written to translate: Enter, Space, Backspace, '.', '/', the
   * digit row and the three letter rows, each pressed (the released codes, 0x80 and above, and
   * every other key give 0).
   */
  predicate Translated(key: Byte) {
    || key in {0x1C, 0x39, 0x0E, 0x34, 0x35}
    || 0x02 <= key <= 0x0B
    || 0x10 <= key <= 0x19
    || 0x1E <= key <= 0x26
    || 0x2C <= key <= 0x32
  }

  /** keyboard_to_ascii with the top row looked up only for its ten letters. */
  function KeyToAscii(key: Byte): Byte {
    if key == 0x1C then '\n' as int
    else if key == 0x39 then ' ' as int
    else if key == 0x0E then '\r' as int
    else if key == 0x34 then '.' as int
    else if key == 0x35 then '/' as int
    else if key == 0x0B then '0' as int
    else if 0x02 <= key <= 0x0B then NUM[key - 0x02]
    else if 0x10 <= key <= 0x19 then QWERTYUIOP[key - 0x10]
    else if 0x1E <= key <= 0x26 then ASDFGHJKL[key - 0x1E]
    else if 0x2C <= key <= 0x32 then ZXCVBNM[key - 0x2C]
    else 0
  }

  /** A key gives a character (not 0) exactly when it is one of the translated keys. */
  lemma KeyToAsciiNonZero(key: Byte)
    ensures KeyToAscii(key) != 0 <==> Translated(key)
  {
    assert forall i :: 0 <= i < |NUM| ==> NUM[i] != 0;
    assert forall i :: 0 <= i < |QWERTYUIOP| ==> QWERTYUIOP[i] != 0;
    assert forall i :: 0 <= i < |ASDFGHJKL| ==> ASDFGHJKL[i] != 0;
    assert forall i :: 0 <= i < |ZXCVBNM| ==> ZXCVBNM[i] != 0;
  }

  /** Scan code set 1 keeps the digits in order: the key 0x02 + d - 1 types the digit d, and 0x0B types 0. */
  lemma DigitKeys(key: Byte)
    requires 0x02 <= key <= 0x0B
    ensures KeyToAscii(key) == '0' as int + (if key == 0x0B then 0 else key - 0x01)
  {
  }

  /** As written and corrected agree on every key but the two past the top row's letters. */
  lemma AsWrittenAgrees(key: Byte, past: Byte)
    ensures key != 0x1A && key != 0x1B ==> KeyToAsciiAsWritten(key, past) == KeyToAscii(key)
    ensures KeyToAsciiAsWritten(0x1A, past) == 0 && KeyToAsciiAsWritten(0x1B, past) == past
  {
    assert (QWERTYUIOP + [0, past])[0x1B - 0x10] == past;
    if 0x10 <= key <= 0x19 {
      assert (QWERTYUIOP + [0, past])[key - 0x10] == QWERTYUIOP[key - 0x10];
    }
  }

  /** The 256-byte key cache and the count of bytes waiting in it (keycache and key_loc). */
  class KeyCache {
    var cache: array<Byte>
    var loc: int

    ghost predicate Valid()
      reads this
    {
      cache.Length == KEY_CACHE_SIZE && 0 <= loc < KEY_CACHE_SIZE
    }

    /** The characters waiting, oldest first. */
    function Contents(): seq<Byte>
      reads this, cache
      requires Valid()
    {
      cache[..loc]
    }

    /** init_keyboard: a fresh cache with nothing waiting. */
    constructor ()
      ensures Valid() && fresh(cache) && Contents() == []
    {
      cache := new Byte[KEY_CACHE_SIZE];
      loc := 0;
    }

    /**
     * keyboard_callback for the scan code key: when the handler gets the lock (acquired) and
     * fewer than 255 characters wait, keyboard_to_ascii's character for the key is appended,
     * as written (past is the byte stored after the top row's literal); otherwise it is dropped.
     * On every key but 0x1A and 0x1B that character is the corrected table's.
     */
    method Callback(key: Byte, past: Byte, acquired: bool)
      requires Valid()
      modifies this, cache
      ensures Valid() && cache == old(cache)
      ensures acquired && old(loc) < KEY_CACHE_SIZE - 1 ==> Contents() == old(Contents()) + [KeyToAsciiAsWritten(key, past)]
      ensures acquired && old(loc) < KEY_CACHE_SIZE - 1 && key != 0x1A && key != 0x1B ==>
        Contents() == old(Contents()) + [KeyToAscii(key)]
      ensures !(acquired && old(loc) < KEY_CACHE_SIZE - 1) ==> Contents() == old(Contents())
    {
      AsWrittenAgrees(key, past);
      if acquired {
        if loc < KEY_CACHE_SIZE - 1 {
          cache[loc] := KeyToAsciiAsWritten(key, past);
          loc := loc + 1;
        }
      }
    }

    /**
     * get_keyboard_key: 0 when nothing waits; otherwise the oldest character, which is taken
     * off by moving every later byte one place to the front.
     */
    method GetKey() returns (ch: Byte)
      requires Valid()
      modifies this, cache
      ensures Valid() && cache == old(cache)
      ensures old(Contents()) == [] ==> ch == 0 && Contents() == []
      ensures old(Contents()) != [] ==> ch == old(Contents())[0] && Contents() == old(Contents())[1..]
    {
      ch := 0;
      if loc != 0 {
        ch := cache[0];
        ghost var before := cache[..];
        var i := 0;
        while i < loc
          invariant Valid() && cache == old(cache) && loc == old(loc)
          invariant 0 <= i <= loc
          invariant forall k :: 0 <= k < i ==> cache[k] == before[k + 1]
          invariant forall k :: i <= k < KEY_CACHE_SIZE ==> cache[k] == before[k]
        {
          cache[i] := cache[i + 1];
          i := i + 1;
        }
        loc := loc - 1;
        assert cache[..loc] == before[1..loc + 1];
      }
    }
  }
}
