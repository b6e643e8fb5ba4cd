// The freestanding C library routines of src/common.c over a flat byte memory: `mem` is the
// memory and every pointer is an index into it.
module Common {
  import opened Types

  /** n copies of byte b. */
  function Fill(b: u8, n: nat): (r: seq<u8>)
    ensures |r| == n && forall k :: 0 <= k < n ==> r[k] == b
  {
    seq(n, _ => b)
  }

  /** Memory m with the n bytes at src written over the n bytes at dst. */
  function Copied(m: seq<u8>, dst: nat, src: nat, n: nat): seq<u8>
    requires dst + n <= |m| && src + n <= |m|
  {
    m[..dst] + m[src..src + n] + m[dst + n..]
  }

  /** Two memories that agree on every byte of [lo, hi) have the same slice there. */
  lemma SameBytes(m0: seq<u8>, m1: seq<u8>, lo: nat, hi: nat)
    requires lo <= hi <= |m0| && hi <= |m1|
    requires forall i :: lo <= i < hi ==> m1[i] == m0[i]
    ensures m1[lo..hi] == m0[lo..hi]
  {
  }

  /** memset: writes (u8)c to the n bytes at s and returns s. */
  method Memset(mem: array<u8>, s: nat, c: int, n: nat) returns (r: nat)
    requires s + n <= mem.Length
    modifies mem
    ensures r == s
    ensures mem[..] == old(mem[..s]) + Fill(ByteOf(c), n) + old(mem[s + n..])
  {
    ghost var m0 := mem[..];
    var p := s;
    while p != s + n
      invariant s <= p <= s + n
      invariant forall k {:trigger mem[k]} :: 0 <= k < mem.Length ==> mem[k] == if s <= k < p then ByteOf(c) else m0[k]
    {
      mem[p] := ByteOf(c);
      p := p + 1;
    }
    FilledAt(m0, mem[..], s, n, ByteOf(c));
    return s;
  }

  /** Memory m equals m0 with n bytes b at s when it agrees with that byte by byte. */
  lemma FilledAt(m0: seq<u8>, m: seq<u8>, s: nat, n: nat, b: u8)
    requires s + n <= |m0| == |m|
    requires forall k {:trigger m[k]} :: 0 <= k < |m| ==> m[k] == if s <= k < s + n then b else m0[k]
    ensures m == m0[..s] + Fill(b, n) + m0[s + n..]
  {
  }

  /**
   * memcpy: copies n bytes front to back and returns dst. The copy is exact when dst does not
   * lie inside (src, src + n); there the forward copy would read bytes it has already written.
   */
  method Memcpy(mem: array<u8>, dst: nat, src: nat, n: nat) returns (r: nat)
    requires dst + n <= mem.Length && src + n <= mem.Length
    requires dst <= src || src + n <= dst
    modifies mem
    ensures r == dst
    ensures mem[..] == Copied(old(mem[..]), dst, src, n)
  {
    ghost var m0 := mem[..];
    var i := 0;
    while i != n
      invariant 0 <= i <= n
      invariant forall k {:trigger mem[k]} :: 0 <= k < mem.Length ==> mem[k] == if dst <= k < dst + i then m0[src + (k - dst)] else m0[k]
    {
      assert mem[src + i] == m0[src + i];
      mem[dst + i] := mem[src + i];
      i := i + 1;
    }
    CopiedAt(m0, mem[..], dst, src, n);
    return dst;
  }

  /**
   * memmove: dst ends up holding the original n source bytes even when the regions overlap.
   * It copies back to front exactly when dst lies strictly inside (src, src + n).
   */
  method Memmove(mem: array<u8>, dst: nat, src: nat, n: nat) returns (r: nat)
    requires dst + n <= mem.Length && src + n <= mem.Length
    modifies mem
    ensures r == dst
    ensures mem[..] == Copied(old(mem[..]), dst, src, n)
  {
    ghost var m0 := mem[..];
    if dst > src && dst < src + n {
      var i := n;
      while i != 0
        invariant 0 <= i <= n
        invariant forall k {:trigger mem[k]} :: 0 <= k < mem.Length ==> mem[k] == if dst + i <= k < dst + n then m0[src + (k - dst)] else m0[k]
      {
        i := i - 1;
        mem[dst + i] := mem[src + i];
      }
    } else {
      var i := 0;
      while i != n
        invariant 0 <= i <= n
        invariant forall k {:trigger mem[k]} :: 0 <= k < mem.Length ==> mem[k] == if dst <= k < dst + i then m0[src + (k - dst)] else m0[k]
      {
        mem[dst + i] := mem[src + i];
        i := i + 1;
      }
    }
    CopiedAt(m0, mem[..], dst, src, n);
    return dst;
  }

  /**
   * memchr: the address of the first of the n bytes at buf that equals c, or 0. A byte is
   * compared with the int c, so a c outside 0..255 never matches. A match at address 0 also
   * yields 0.
   */
  method Memchr(mem: array<u8>, buf: nat, c: int, n: nat) returns (r: nat)
    requires buf + n <= mem.Length
    ensures r != NULL ==> buf <= r < buf + n && mem[r] as int == c
    ensures forall k :: buf <= k < buf + n && k < r ==> mem[k] as int != c
    ensures r == NULL <==> (forall k :: buf <= k < buf + n ==> mem[k] as int != c) || (buf == 0 && n > 0 && mem[0] as int == c)
  {
    var p := buf;
    while p != buf + n
      invariant buf <= p <= buf + n
      invariant forall k :: buf <= k < p ==> mem[k] as int != c
    {
      if mem[p] as int == c {
        return p;
      }
      p := p + 1;
    }
    return NULL;
  }

  /** The C comparison of two equally long byte strings: 0, or the difference at the first mismatch. */
  function Compare(a: seq<u8>, b: seq<u8>): int
    requires |a| == |b|
  {
    if a == [] then 0
    else if a[0] != b[0] then a[0] as int - b[0] as int
    else Compare(a[1..], b[1..])
  }

  /** memcmp's result is 0 exactly when the two byte ranges are equal. */
  lemma {:induction false} CompareZeroIff(a: seq<u8>, b: seq<u8>)
    requires |a| == |b|
    ensures Compare(a, b) == 0 <==> a == b
  {
    if a != [] {
      if a[0] != b[0] {
        assert a[0] as int != b[0] as int;
      } else {
        CompareZeroIff(a[1..], b[1..]);
        assert a == [a[0]] + a[1..] && b == [b[0]] + b[1..];
      }
    }
  }

  /**
   * memcmp as written: the loop tests `*byte1 == *byte2` before `n > 0`, so when the first n
   * bytes are equal it also reads the byte pair at offset n.
   */
  method Memcmp(mem: array<u8>, s1: nat, s2: nat, n: nat) returns (r: int)
    requires s1 + n < mem.Length && s2 + n < mem.Length
    ensures r == Compare(mem[s1..s1 + n], mem[s2..s2 + n])
  {
    var i := 0;
    ghost var a, b := mem[s1..s1 + n], mem[s2..s2 + n];
    while mem[s1 + i] == mem[s2 + i] && i < n
      invariant 0 <= i <= n
      invariant forall k :: 0 <= k < i ==> a[k] == b[k]
    {
      assert a[i] == mem[s1 + i] && b[i] == mem[s2 + i];
      i := i + 1;
    }
    CompareFirstMismatch(a, b, i);
    if i == n {
      return 0;
    }
    assert a[i] == mem[s1 + i] && b[i] == mem[s2 + i];
    return mem[s1 + i] as int - mem[s2 + i] as int;
  }

  /** Compare is decided by the first mismatch, wherever it is. */
  lemma {:induction false} CompareFirstMismatch(a: seq<u8>, b: seq<u8>, i: nat)
    requires |a| == |b| && i <= |a| && forall k :: 0 <= k < i ==> a[k] == b[k]
    ensures i == |a| ==> Compare(a, b) == 0
    ensures i < |a| && a[i] != b[i] ==> Compare(a, b) == a[i] as int - b[i] as int
  {
    if i > 0 {
      CompareFirstMismatch(a[1..], b[1..], i - 1);
    } else if i == |a| {
      assert a == b;
    }
  }

  /** Byte pairs memcmp's loop reads as written: it reads the pair at offset k before testing n. */
  function PairsReadAsWritten(a: seq<u8>, b: seq<u8>, n: nat): nat
    requires n < |a| && n < |b|
  {
    if a[0] != b[0] || n == 0 then 1 else 1 + PairsReadAsWritten(a[1..], b[1..], n - 1)
  }

  /** Byte pairs read when `n > 0` is tested first, as a bounded comparison must. */
  function PairsReadBounded(a: seq<u8>, b: seq<u8>, n: nat): nat
    requires n <= |a| && n <= |b|
  {
    if n == 0 then 0 else if a[0] != b[0] then 1 else 1 + PairsReadBounded(a[1..], b[1..], n - 1)
  }

  /** Comparing n equal bytes as written reads n + 1 pairs: one pair outside the n bytes. */
  lemma {:induction false} MemcmpReadsPastEnd(a: seq<u8>, n: nat)
    requires n < |a|
    ensures PairsReadAsWritten(a, a, n) == n + 1
  {
    if n > 0 {
      MemcmpReadsPastEnd(a[1..], n - 1);
    }
  }

  /** The bounded comparison never reads beyond the n bytes. */
  lemma {:induction false} MemcmpBoundedReadsWithin(a: seq<u8>, b: seq<u8>, n: nat)
    requires n <= |a| && n <= |b|
    ensures PairsReadBounded(a, b, n) <= n
  {
    if n > 0 && a[0] == b[0] {
      MemcmpBoundedReadsWithin(a[1..], b[1..], n - 1);
    }
  }

  /** memcmp with the two loop tests in the intended order: reads only the n bytes. */
  method MemcmpBounded(mem: array<u8>, s1: nat, s2: nat, n: nat) returns (r: int)
    requires s1 + n <= mem.Length && s2 + n <= mem.Length
    ensures r == Compare(mem[s1..s1 + n], mem[s2..s2 + n])
  {
    var i := 0;
    ghost var a, b := mem[s1..s1 + n], mem[s2..s2 + n];
    while i < n && mem[s1 + i] == mem[s2 + i]
      invariant 0 <= i <= n
      invariant forall k :: 0 <= k < i ==> a[k] == b[k]
    {
      assert a[i] == mem[s1 + i] && b[i] == mem[s2 + i];
      i := i + 1;
    }
    CompareFirstMismatch(a, b, i);
    if i == n {
      return 0;
    }
    assert a[i] == mem[s1 + i] && b[i] == mem[s2 + i];
    return mem[s1 + i] as int - mem[s2 + i] as int;
  }

  /** A NUL byte lies at or after s. */
  ghost predicate Terminated(mem: seq<u8>, s: nat) {
    exists k :: s <= k < |mem| && mem[k] == 0
  }

  /** The length of the NUL-terminated string at s. */
  function StrLen(mem: seq<u8>, s: nat): (len: nat)
    requires Terminated(mem, s)
    ensures s + len < |mem| && mem[s + len] == 0
    ensures forall k :: s <= k < s + len ==> mem[k] != 0
    decreases |mem| - s
  {
    if mem[s] == 0 then 0 else 1 + StrLen(mem, s + 1)
  }

  /** The string at s, without its terminator. */
  function Str(mem: seq<u8>, s: nat): seq<u8>
    requires Terminated(mem, s)
  {
    mem[s..s + StrLen(mem, s)]
  }

  /** strlen: counts the bytes before the first NUL. */
  method Strlen(mem: array<u8>, str: nat) returns (r: nat)
    requires Terminated(mem[..], str)
    ensures str + r < mem.Length && mem[str + r] == 0
    ensures forall k :: str <= k < str + r ==> mem[k] != 0
  {
    var s := str;
    while mem[s] != 0
      invariant str <= s < mem.Length && Terminated(mem[..], s)
      invariant forall k :: str <= k < s ==> mem[k] != 0
      decreases mem.Length - s
    {
      s := s + 1;
    }
    return s - str;
  }

  /**
   * strcpy: copies the string at src and its terminator to dst. The copy runs forward, so a dst
   * below src may overlap the string: each byte is read before it is overwritten.
   */
  method Strcpy(mem: array<u8>, dst: nat, src: nat) returns (r: nat)
    requires Terminated(mem[..], src)
    requires dst + StrLen(mem[..], src) < mem.Length
    requires dst <= src || src + StrLen(mem[..], src) < dst
    modifies mem
    ensures r == dst
    ensures mem[..] == Copied(old(mem[..]), dst, src, StrLen(old(mem[..]), src) + 1)
  {
    ghost var m0 := mem[..];
    ghost var len := StrLen(m0, src);
    var i := CopyUntilNul(mem, dst, src, len);
    CopiedStep(m0, dst, src, len);
    ghost var copied := mem[..];
    mem[dst + i] := 0;
    assert mem[..] == copied[dst + len := m0[src + len]];
    return dst;
  }

  /**
   * The while loop of strcpy: copies bytes forward from src to dst up to the NUL at src + len,
   * which it does not copy. Each byte is read before the loop could overwrite it.
   */
  method CopyUntilNul(mem: array<u8>, dst: nat, src: nat, ghost len: nat) returns (i: nat)
    requires src + len < mem.Length && dst + len < mem.Length
    requires mem[src + len] == 0 && forall k :: src <= k < src + len ==> mem[k] != 0
    requires dst <= src || src + len < dst
    modifies mem
    ensures i == len && mem[..] == Copied(old(mem[..]), dst, src, len)
  {
    ghost var m0 := mem[..];
    i := 0;
    while mem[src + i] != 0
      invariant 0 <= i <= len
      invariant forall k {:trigger mem[k]} :: dst <= k < dst + i ==> mem[k] == m0[src + (k - dst)]
      invariant forall k {:trigger mem[k]} :: 0 <= k < mem.Length && !(dst <= k < dst + i) ==> mem[k] == m0[k]
      decreases len - i
    {
      assert mem[src + i] == m0[src + i];
      mem[dst + i] := mem[src + i];
      i := i + 1;
    }
    CopiedFrom(m0, mem[..], dst, src, len);
  }

  /**
   * One step of a forward copy: the byte at src + i has not been overwritten yet, and writing
   * it at dst + i copies one more byte.
   */
  lemma CopiedStep(m0: seq<u8>, dst: nat, src: nat, i: nat)
    requires dst + i < |m0| && src + i < |m0|
    requires dst <= src || src + i < dst
    ensures Copied(m0, dst, src, i)[src + i] == m0[src + i]
    ensures Copied(m0, dst, src, i)[dst + i := m0[src + i]] == Copied(m0, dst, src, i + 1)
  {
    var c := Copied(m0, dst, src, i);
    var c1 := Copied(m0, dst, src, i + 1);
    CopiedIndex(m0, dst, src, i, src + i);
    forall k | 0 <= k < |m0| ensures c[dst + i := m0[src + i]][k] == c1[k] {
      CopiedIndex(m0, dst, src, i, k);
      CopiedIndex(m0, dst, src, i + 1, k);
    }
  }

  /** The byte at k of Copied(m, dst, src, n): a source byte inside [dst, dst + n), else m's. */
  lemma CopiedIndex(m: seq<u8>, dst: nat, src: nat, n: nat, k: nat)
    requires dst + n <= |m| && src + n <= |m| && k < |m|
    ensures |Copied(m, dst, src, n)| == |m|
    ensures Copied(m, dst, src, n)[k] == if dst <= k < dst + n then m[src + (k - dst)] else m[k]
  {
    var a, b, c := m[..dst], m[src..src + n], m[dst + n..];
    assert Copied(m, dst, src, n) == a + b + c;
    if k < dst {
      assert (a + b + c)[k] == a[k];
    } else if k < dst + n {
      assert (a + b + c)[k] == b[k - dst];
    } else {
      assert (a + b + c)[k] == c[k - dst - n];
    }
  }

  /** A forward copy's two invariants at the end: the n bytes at dst are src's, the rest unchanged. */
  lemma CopiedFrom(m0: seq<u8>, m: seq<u8>, dst: nat, src: nat, n: nat)
    requires dst + n <= |m0| && src + n <= |m0| && |m| == |m0|
    requires forall k :: dst <= k < dst + n ==> m[k] == m0[src + (k - dst)]
    requires forall k :: 0 <= k < |m| && !(dst <= k < dst + n) ==> m[k] == m0[k]
    ensures m == Copied(m0, dst, src, n)
  {
    CopiedAt(m0, m, dst, src, n);
  }

  /** Memory m equals Copied(m0, dst, src, n) when it agrees with it byte by byte. */
  lemma CopiedAt(m0: seq<u8>, m: seq<u8>, dst: nat, src: nat, n: nat)
    requires dst + n <= |m0| && src + n <= |m0| && |m| == |m0|
    requires forall k {:trigger m[k]} :: 0 <= k < |m| ==> m[k] == if dst <= k < dst + n then m0[src + (k - dst)] else m0[k]
    ensures m == Copied(m0, dst, src, n)
  {
  }

  /** The first n bytes strncpy reads from src: the string prefix, cut at n. */
  function PrefixLen(mem: seq<u8>, src: nat, n: nat): (len: nat)
    requires src + n <= |mem|
    ensures len <= n
    ensures forall k :: src <= k < src + len ==> mem[k] != 0
    ensures len < n ==> mem[src + len] == 0
    decreases n
  {
    if n == 0 || mem[src] == 0 then 0 else 1 + PrefixLen(mem, src + 1, n - 1)
  }

  /**
   * strncpy: writes exactly n bytes: the bytes of src before its NUL (at most n of them), then
   * NUL padding. No terminator is written when src has n or more bytes before its NUL. As for
   * strcpy, a dst below src may overlap the source bytes.
   */
  method Strncpy(mem: array<u8>, dst: nat, src: nat, n: nat) returns (r: nat)
    requires dst + n <= mem.Length && src + n <= mem.Length
    requires dst <= src || src + n <= dst
    modifies mem
    ensures r == dst
    ensures mem[..] == Padded(old(mem[..]), dst, src, n)
  {
    ghost var m0 := mem[..];
    ghost var len := PrefixLen(m0, src, n);
    var i := 0;
    while i < n && mem[src + i] != 0
      invariant 0 <= i <= len
      invariant forall k {:trigger mem[k]} :: dst <= k < dst + i ==> mem[k] == m0[src + (k - dst)]
      invariant forall k {:trigger mem[k]} :: 0 <= k < mem.Length && !(dst <= k < dst + i) ==> mem[k] == m0[k]
    {
      assert mem[src + i] == m0[src + i];
      mem[dst + i] := mem[src + i];
      i := i + 1;
    }
    PadFrom(mem, dst, i, n);
    PaddedAt(m0, mem[..], dst, src, len, n);
    return dst;
  }

  /** The second loop of strncpy: NULs from dst + i up to dst + n, every other byte kept. */
  method PadFrom(mem: array<u8>, dst: nat, i: nat, n: nat)
    requires i <= n && dst + n <= mem.Length
    modifies mem
    ensures forall k {:trigger mem[k]} :: 0 <= k < mem.Length ==> mem[k] == if dst + i <= k < dst + n then 0 else old(mem[k])
  {
    var j := i;
    while j < n
      invariant i <= j <= n
      invariant forall k {:trigger mem[k]} :: 0 <= k < mem.Length ==> mem[k] == if dst + i <= k < dst + j then 0 else old(mem[k])
    {
      mem[dst + j] := 0;
      j := j + 1;
    }
  }

  /** Memory m0 after strncpy(dst, src, n): the string prefix of src, then NUL padding, at dst. */
  function Padded(m0: seq<u8>, dst: nat, src: nat, n: nat): seq<u8>
    requires dst + n <= |m0| && src + n <= |m0|
  {
    var len := PrefixLen(m0, src, n);
    m0[..dst] + m0[src..src + len] + Fill(0, n - len) + m0[dst + n..]
  }

  lemma PaddedAt(m0: seq<u8>, m: seq<u8>, dst: nat, src: nat, len: nat, n: nat)
    requires dst + n <= |m0| && src + n <= |m0| && |m| == |m0| && len == PrefixLen(m0, src, n)
    requires forall k {:trigger m[k]} :: 0 <= k < |m| ==> m[k] == if dst <= k < dst + len then m0[src + (k - dst)] else if dst + len <= k < dst + n then 0 else m0[k]
    ensures m == Padded(m0, dst, src, n)
  {
    var want := m0[..dst] + m0[src..src + len] + Fill(0, n - len) + m0[dst + n..];
    forall k | 0 <= k < |m| ensures m[k] == want[k] {
      if k < dst {
      } else if k < dst + len {
        assert want[k] == m0[src + (k - dst)];
      } else if k < dst + n {
        assert want[k] == 0;
      } else {
        assert want[k] == m0[k];
      }
    }
  }

  /** A char as the signed value C promotes it to (char is signed on i386). */
  function Signed(b: u8): int {
    var x := b as int;
    if x < 0x80 then x else x - 256
  }

  lemma SignedInjective(x: u8, y: u8)
    requires x != y
    ensures Signed(x) != Signed(y)
  {
    assert x as int != y as int;
  }

  /** A string is empty at its NUL, otherwise its first byte followed by the rest. */
  lemma StrCons(mem: seq<u8>, s: nat)
    requires Terminated(mem, s)
    ensures mem[s] == 0 ==> Str(mem, s) == []
    ensures mem[s] != 0 ==> Terminated(mem, s + 1) && Str(mem, s) == [mem[s]] + Str(mem, s + 1)
  {
  }

  /** strcmp's result on the strings at s1 and s2: 0, or the signed difference at the first mismatch. */
  function StrCmp(mem: seq<u8>, s1: nat, s2: nat): int
    requires Terminated(mem, s1) && Terminated(mem, s2)
    decreases |mem| - s1
  {
    StrCons(mem, s1);
    StrCons(mem, s2);
    if mem[s1] != mem[s2] then Signed(mem[s1]) - Signed(mem[s2])
    else if mem[s1] == 0 then 0
    else StrCmp(mem, s1 + 1, s2 + 1)
  }

  /** strcmp returns 0 exactly when the two strings are equal. */
  lemma {:induction false} StrCmpZeroIff(mem: seq<u8>, s1: nat, s2: nat)
    requires Terminated(mem, s1) && Terminated(mem, s2)
    ensures StrCmp(mem, s1, s2) == 0 <==> Str(mem, s1) == Str(mem, s2)
    decreases |mem| - s1
  {
    StrCons(mem, s1);
    StrCons(mem, s2);
    if mem[s1] != mem[s2] {
      SignedInjective(mem[s1], mem[s2]);
      if mem[s1] != 0 && mem[s2] != 0 {
        assert Str(mem, s1)[0] != Str(mem, s2)[0];
      } else {
        assert |Str(mem, s1)| != |Str(mem, s2)|;
      }
    } else if mem[s1] != 0 {
      StrCmpZeroIff(mem, s1 + 1, s2 + 1);
      assert Str(mem, s1)[1..] == Str(mem, s1 + 1);
      assert Str(mem, s2)[1..] == Str(mem, s2 + 1);
    }
  }

  /** strcmp: compares the NUL-terminated strings at s1 and s2. */
  method Strcmp(mem: array<u8>, s1: nat, s2: nat) returns (r: int)
    requires Terminated(mem[..], s1) && Terminated(mem[..], s2)
    ensures r == StrCmp(mem[..], s1, s2)
    ensures r == 0 <==> Str(mem[..], s1) == Str(mem[..], s2)
  {
    var p: nat, q: nat := s1, s2;
    StrCmpStep(mem[..], p, q);
    while mem[p] == mem[q]
      invariant Terminated(mem[..], p) && Terminated(mem[..], q)
      invariant p - s1 == q - s2 && s1 <= p
      invariant StrCmp(mem[..], p, q) == StrCmp(mem[..], s1, s2)
      decreases mem.Length - p
    {
      StrCmpStep(mem[..], p, q);
      if mem[p] == 0 {
        StrCmpZeroIff(mem[..], s1, s2);
        return 0;
      }
      p, q := p + 1, q + 1;
    }
    StrCmpStep(mem[..], p, q);
    StrCmpZeroIff(mem[..], s1, s2);
    return Signed(mem[p]) - Signed(mem[q]);
  }

  /** One step of strcmp's loop, unfolded once. */
  lemma StrCmpStep(m: seq<u8>, p: nat, q: nat)
    requires Terminated(m, p) && Terminated(m, q)
    ensures p < |m| && q < |m|
    ensures m[p] != m[q] ==> StrCmp(m, p, q) == Signed(m[p]) - Signed(m[q])
    ensures m[p] == m[q] == 0 ==> StrCmp(m, p, q) == 0
    ensures m[p] == m[q] != 0 ==> Terminated(m, p + 1) && Terminated(m, q + 1) && StrCmp(m, p, q) == StrCmp(m, p + 1, q + 1)
  {
    StrCons(m, p);
    StrCons(m, q);
  }

  /** The character of a digit value below 16: '0'..'9', then 'a'..'f'. */
  function DigitChar(v: nat): u8
    requires v < 16
  {
    (if v < 10 then 0x30 + v else 0x61 + v - 10) as u8
  }

  /** The value of a digit character ('0'..'9', 'a'..'f'); 0 for any other byte. */
  function DigitValue(c: u8): nat {
    var x := c as int;
    if 0x30 <= x <= 0x39 then x - 0x30
    else if 0x61 <= x <= 0x66 then x - 0x61 + 10
    else 0
  }

  lemma DigitCharValue(v: nat)
    requires v < 16
    ensures DigitValue(DigitChar(v)) == v && DigitChar(v) != 0x2D && (DigitChar(v) == DigitChar(0) ==> v == 0)
  {
  }

  /** The digits of n in base b, most significant first, with no leading zero. */
  function Digits(n: nat, b: nat): seq<u8>
    requires b == 10 || b == 16
    decreases n
  {
    if n < b then [DigitChar(n)] else Digits(n / b, b) + [DigitChar(n % b)]
  }

  /** The number a digit string denotes in base b. */
  function ValueOf(s: seq<u8>, b: nat): nat {
    if s == [] then 0 else ValueOf(s[..|s| - 1], b) * b + DigitValue(s[|s| - 1])
  }

  /** Digits is inverted by ValueOf, and its leading digit is '0' only for n == 0. */
  lemma {:induction false} DigitsRoundTrip(n: nat, b: nat)
    requires b == 10 || b == 16
    ensures ValueOf(Digits(n, b), b) == n
    ensures 1 <= |Digits(n, b)| && (Digits(n, b)[0] == DigitChar(0) ==> n == 0)
  {
    if n >= b {
      var q, r := n / b, n % b;
      assert n == q * b + r && r < b by {
        if b == 10 { assert n == (n / 10) * 10 + n % 10; } else { assert n == (n / 16) * 16 + n % 16; }
      }
      DigitsRoundTrip(q, b);
      var ds := Digits(q, b) + [DigitChar(r)];
      assert Digits(n, b) == ds;
      assert ds[..|ds| - 1] == Digits(q, b);
      DigitCharValue(r);
      assert ValueOf(ds, b) == ValueOf(Digits(q, b), b) * b + r;
    } else {
      DigitCharValue(n);
      assert ValueOf([DigitChar(n)], b) == ValueOf([], b) * b + DigitValue(DigitChar(n));
    }
  }

  /** The digits in the order itoa's division loop emits them: least significant first. */
  function DigitsLsbFirst(n: nat, b: nat): seq<u8>
    requires b == 10 || b == 16
    decreases n
  {
    [DigitChar(n % b)] + (if n < b then [] else DigitsLsbFirst(n / b, b))
  }

  function Reverse(s: seq<u8>): seq<u8> {
    if s == [] then [] else Reverse(s[1..]) + [s[0]]
  }

  lemma {:induction false} ReverseAt(s: seq<u8>, k: nat)
    requires k < |s|
    ensures |Reverse(s)| == |s| && Reverse(s)[k] == s[|s| - 1 - k]
  {
    if k < |s| - 1 {
      ReverseAt(s[1..], k);
    } else if |s| > 1 {
      ReverseAt(s[1..], 0);
    }
  }

  /** Reversing the emitted digits gives the most-significant-first digits. */
  lemma {:induction false} ReverseLsbFirst(n: nat, b: nat)
    requires b == 10 || b == 16
    ensures Reverse(DigitsLsbFirst(n, b)) == Digits(n, b)
    decreases n
  {
    var ds := DigitsLsbFirst(n, b);
    if n >= b {
      assert ds[1..] == DigitsLsbFirst(n / b, b);
      ReverseLsbFirst(n / b, b);
      assert Reverse(ds) == Reverse(ds[1..]) + [ds[0]];
    } else {
      assert n % b == n;
      assert ds == [DigitChar(n)];
    }
  }

  /** itoa's divisor: 16 for base 'x', 10 otherwise. */
  function Divisor(base: int): nat {
    if base == 0x78 then 16 else 10
  }

  /** Whether itoa writes a '-': base 'd' and a negative d. */
  predicate ItoaNegative(base: int, d: int) {
    base == 0x64 && d < 0
  }

  /**
   * The value itoa prints: -d when it writes a '-' (for d == INT_MIN the C negation wraps
   * to 2^31, which the unsigned long conversion keeps), otherwise d read as a u32int.
   */
  function ItoaMagnitude(base: int, d: int): nat {
    if ItoaNegative(base, d) then -d else Wrap32(d)
  }

  /**
   * The text itoa writes for d (before its NUL): '-' and the decimal digits of -d for base 'd'
   * and d < 0, otherwise the digits of d as a u32int in base 16 for 'x' and base 10 for
   * any other base ('d', 'u', ...).
   */
  function ItoaText(base: int, d: int): seq<u8> {
    (if ItoaNegative(base, d) then [0x2D] else []) + Digits(ItoaMagnitude(base, d), Divisor(base))
  }

  /** Reading itoa's text back gives d: a '-' only for base 'd' and d < 0, then -d; else the u32int value. */
  lemma ItoaTextValue(base: int, d: int)
    requires -0x8000_0000 <= d < 0x8000_0000
    ensures var t := ItoaText(base, d);
      if base == 0x64 && d < 0 then t[0] == 0x2D && ValueOf(t[1..], 10) == -d
      else t[0] != 0x2D && ValueOf(t, Divisor(base)) == Wrap32(d)
  {
    var t := ItoaText(base, d);
    if ItoaNegative(base, d) {
      DigitsRoundTrip(-d, 10);
      assert t[1..] == Digits(-d, 10);
    } else {
      DigitsRoundTrip(Wrap32(d), Divisor(base));
      DigitsFirstNotMinus(Wrap32(d), Divisor(base));
      assert t == Digits(Wrap32(d), Divisor(base));
    }
  }

  lemma {:induction false} DigitsFirstNotMinus(n: nat, b: nat)
    requires b == 10 || b == 16
    ensures |Digits(n, b)| >= 1 && Digits(n, b)[0] != 0x2D
    decreases n
  {
    if n >= b {
      DigitsFirstNotMinus(n / b, b);
    } else {
      DigitCharValue(n);
    }
  }

  /**
   * itoa: writes ItoaText(base, d) and a NUL at buf. The digits are produced least significant
   * first by repeated division and then reversed in place.
   */
  method Itoa(mem: array<u8>, buf: nat, base: int, d: int)
    requires -0x8000_0000 <= d < 0x8000_0000
    requires buf + |ItoaText(base, d)| < mem.Length
    modifies mem
    ensures mem[..] == old(mem[..buf]) + ItoaText(base, d) + [0] + old(mem[buf + |ItoaText(base, d)| + 1..])
  {
    var p := buf;
    var start := buf;
    var ud: nat := Wrap32(d);
    var divisor := 10;
    if base == 0x64 && d < 0 {
      mem[p] := 0x2D;
      p := p + 1;
      start := start + 1;
      ud := -d;
    } else if base == 0x78 {
      divisor := 16;
    }
    ghost var sign := if ItoaNegative(base, d) then [0x2D as u8] else [];
    assert ud == ItoaMagnitude(base, d) && divisor == Divisor(base);
    assert mem[buf..start] == sign;
    assert mem[..buf] == old(mem[..buf]) && mem[start..] == old(mem[start..]);
    ghost var m1 := mem[..];
    p := WriteDigits(mem, start, ud, divisor);
    ItoaWritten(old(mem[..]), m1, mem[..], buf, start, p, sign, Digits(ud, divisor));
  }

  /** The unsigned part of itoa: the digits of ud, most significant first, and a NUL after them. */
  method WriteDigits(mem: array<u8>, start: nat, ud: nat, divisor: nat) returns (p: nat)
    requires divisor == 10 || divisor == 16
    requires start + |Digits(ud, divisor)| < mem.Length
    modifies mem
    ensures p == start + |Digits(ud, divisor)|
    ensures mem[start..p] == Digits(ud, divisor) && mem[p] == 0
    ensures mem[..start] == old(mem[..start]) && mem[p + 1..] == old(mem[p + 1..])
  {
    ReverseLsbFirst(ud, divisor);
    ReverseAt(DigitsLsbFirst(ud, divisor), 0);
    p := EmitDigits(mem, start, ud, divisor);
    ghost var m2 := mem[..];
    mem[p] := 0;
    assert mem[..p] == m2[..p] && mem[p + 1..] == m2[p + 1..];
    ReverseRange(mem, start, p);
    assert mem[..start] == m2[..start];
  }

  /** itoa's do-while loop: emits the digits of ud least significant first from p on. */
  method EmitDigits(mem: array<u8>, p0: nat, ud0: nat, divisor: nat) returns (p: nat)
    requires divisor == 10 || divisor == 16
    requires p0 + |DigitsLsbFirst(ud0, divisor)| < mem.Length
    modifies mem
    ensures p == p0 + |DigitsLsbFirst(ud0, divisor)|
    ensures mem[p0..p] == DigitsLsbFirst(ud0, divisor)
    ensures mem[..p0] == old(mem[..p0]) && mem[p..] == old(mem[p..])
  {
    ghost var m0 := mem[..];
    ghost var all := DigitsLsbFirst(ud0, divisor);
    EmitStart(ud0, divisor);
    p := EmitLoop(mem, p0, ud0, divisor, all);
    WrittenAt(m0, mem[..], p0, all);
  }

  /** The do-while loop itself, proved against the digits it must emit, whatever they are. */
  method EmitLoop(mem: array<u8>, p0: nat, ud0: nat, divisor: nat, ghost all: seq<u8>) returns (p: nat)
    requires divisor == 10 || divisor == 16
    requires Remaining(all, 0, ud0, divisor, true) && p0 + |all| < mem.Length
    modifies mem
    ensures p == p0 + |all|
    ensures forall k {:trigger mem[k]} :: 0 <= k < mem.Length ==> mem[k] == if p0 <= k < p then all[k - p0] else old(mem[k])
  {
    ghost var m0 := mem[..];
    p := p0;
    var ud: nat := ud0;
    var more := true;
    while more
      invariant p0 <= p && Remaining(all, p - p0, ud, divisor, more)
      invariant forall k {:trigger mem[k]} :: 0 <= k < mem.Length ==> mem[k] == if p0 <= k < p then all[k - p0] else m0[k]
      decreases ud, more
    {
      p, ud, more := EmitDigit(mem, p0, p, ud, divisor, all, m0);
    }
    EmitDone(all, p - p0, ud, divisor);
  }

  /** One pass of the do-while loop: the digit of ud % divisor goes at p, and ud is divided. */
  method EmitDigit(mem: array<u8>, p0: nat, p: nat, ud: nat, divisor: nat, ghost all: seq<u8>, ghost m0: seq<u8>)
    returns (p': nat, ud': nat, more: bool)
    requires divisor == 10 || divisor == 16
    requires p0 <= p && Remaining(all, p - p0, ud, divisor, true) && p0 + |all| < mem.Length == |m0|
    requires forall k {:trigger mem[k]} :: 0 <= k < mem.Length ==> mem[k] == if p0 <= k < p then all[k - p0] else m0[k]
    modifies mem
    ensures p' == p + 1 && Remaining(all, p' - p0, ud', divisor, more) && ud' <= ud && (more ==> ud' < ud)
    ensures forall k {:trigger mem[k]} :: 0 <= k < mem.Length ==> mem[k] == if p0 <= k < p' then all[k - p0] else m0[k]
  {
    var remainder := ud % divisor;
    EmitStep(all, p - p0, ud, divisor);
    mem[p] := DigitChar(remainder);
    p' := p + 1;
    ud' := ud / divisor;
    more := ud' != 0;
    forall k | 0 <= k < mem.Length ensures mem[k] == if p0 <= k < p' then all[k - p0] else m0[k] {
      if k != p {
        assert mem[k] == old(mem[k]);
      }
    }
  }

  /** Memory m agreeing with m0 outside [p0, p0 + |w|) and holding w inside it. */
  lemma WrittenAt(m0: seq<u8>, m: seq<u8>, p0: nat, w: seq<u8>)
    requires |m| == |m0| && p0 + |w| <= |m|
    requires forall k {:trigger m[k]} :: 0 <= k < |m| ==> m[k] == if p0 <= k < p0 + |w| then w[k - p0] else m0[k]
    ensures m[p0..p0 + |w|] == w
    ensures m[..p0] == m0[..p0] && m[p0 + |w|..] == m0[p0 + |w|..]
  {
  }

  /**
   * After i passes of itoa's do-while loop, all[..i] has been emitted and, while the loop
   * goes on, the digits of ud are the rest of all.
   */
  ghost predicate Remaining(all: seq<u8>, i: nat, ud: nat, b: nat, more: bool)
    requires b == 10 || b == 16
  {
    i <= |all| && all[i..] == if more then DigitsLsbFirst(ud, b) else []
  }

  lemma EmitStart(n: nat, b: nat)
    requires b == 10 || b == 16
    ensures Remaining(DigitsLsbFirst(n, b), 0, n, b, true)
  {
  }

  lemma EmitDone(all: seq<u8>, i: nat, n: nat, b: nat)
    requires b == 10 || b == 16
    requires Remaining(all, i, n, b, false)
    ensures i == |all|
  {
  }

  /** One pass of itoa's do-while loop: the next digit emitted is the next one of all. */
  lemma EmitStep(all: seq<u8>, i: nat, n: nat, b: nat)
    requires b == 10 || b == 16
    requires Remaining(all, i, n, b, true)
    ensures n % b < 16 && i < |all| && all[i] == DigitChar(n % b)
    ensures n != 0 ==> n / b < n
    ensures Remaining(all, i + 1, n / b, b, n / b != 0)
  {
    LsbStep(n, b);
    assert all[i + 1..] == all[i..][1..];
  }

  lemma LsbStep(n: nat, b: nat)
    requires b == 10 || b == 16
    ensures n % b < 16 && (n != 0 ==> n / b < n)
    ensures DigitsLsbFirst(n, b) == [DigitChar(n % b)] + (if n / b == 0 then [] else DigitsLsbFirst(n / b, b))
  {
    assert n < b <==> n / b == 0 by {
      if b == 10 { assert n < 10 <==> n / 10 == 0; } else { assert n < 16 <==> n / 16 == 0; }
    }
  }

  /** itoa's final loop: reverses mem[lo..hi) in place by swapping from both ends. */
  method ReverseRange(mem: array<u8>, lo: nat, hi: nat)
    requires lo < hi <= mem.Length
    modifies mem
    ensures mem[lo..hi] == Reverse(old(mem[lo..hi]))
    ensures mem[..lo] == old(mem[..lo]) && mem[hi..] == old(mem[hi..])
  {
    ghost var m0 := mem[..];
    var i: int, j: int := lo, hi - 1;
    while i < j
      invariant lo <= i <= j + 1 <= hi && i - lo == hi - 1 - j
      invariant forall k :: lo <= k < i ==> mem[k] == m0[lo + hi - 1 - k]
      invariant forall k :: j < k < hi ==> mem[k] == m0[lo + hi - 1 - k]
      invariant forall k :: i <= k <= j ==> mem[k] == m0[k]
      invariant forall k :: 0 <= k < lo ==> mem[k] == m0[k]
      invariant forall k :: hi <= k < mem.Length ==> mem[k] == m0[k]
    {
      mem[i], mem[j] := mem[j], mem[i];
      i := i + 1;
      j := j - 1;
    }
    ReversedBetween(m0, mem[..], lo, hi);
  }

  lemma ReversedBetween(m0: seq<u8>, m: seq<u8>, lo: nat, hi: nat)
    requires lo < hi <= |m| == |m0|
    requires forall k :: lo <= k < hi ==> m[k] == m0[lo + hi - 1 - k]
    requires forall k :: 0 <= k < lo ==> m[k] == m0[k]
    requires forall k :: hi <= k < |m| ==> m[k] == m0[k]
    ensures m[lo..hi] == Reverse(m0[lo..hi])
    ensures m[..lo] == m0[..lo] && m[hi..] == m0[hi..]
  {
    var seg := m0[lo..hi];
    ReverseAt(seg, 0);
    forall k | lo <= k < hi ensures m[k] == Reverse(seg)[k - lo] {
      ReverseAt(seg, k - lo);
    }
  }

  lemma ItoaWritten(m0: seq<u8>, m1: seq<u8>, m: seq<u8>, buf: nat, start: nat, p: nat, sign: seq<u8>, ds: seq<u8>)
    requires |m| == |m0| == |m1| && buf <= start <= p < |m|
    requires m1[buf..start] == sign && m1[..buf] == m0[..buf] && m1[start..] == m0[start..]
    requires m[start..p] == ds && m[p] == 0
    requires m[..start] == m1[..start] && m[p + 1..] == m1[p + 1..]
    ensures m == m0[..buf] + (sign + ds) + [0] + m0[buf + |sign + ds| + 1..]
  {
    assert m[buf..p] == m[buf..start] + m[start..p];
    assert m[buf..start] == m1[..start][buf..];
    assert m[..buf] == m1[..start][..buf];
    assert m[p + 1..] == m1[start..][p + 1 - start..];
    assert m == m[..buf] + m[buf..p] + [m[p]] + m[p + 1..];
  }



}
