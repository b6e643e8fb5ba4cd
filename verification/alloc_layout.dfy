// The layout of klmalloc's state in src/alloc.c, over plain values: the cells of a small page,
// the threaded free stacks, the page lists, the skip list's free blocks and the physical chain
// of big blocks, with the lemmas that carry the layout across each step of malloc and free.
module AllocLayout {
  import opened Types
  import opened AllocBins
  import SkipList

  const BIN_MAGIC: u32 := 0xDEFAD00D
  /** klmalloc_bin_head holds one page list per small bin: NUM_BINS - 1 of them. */
  const SMALL_BINS: nat := NUM_BINS - 1

  /** ptr & ~PAGE_MASK: the start of the page that holds x. */
  function HeaderOf(x: u32): (h: u32)
    ensures h % PAGE_SIZE == 0 && h <= x < h + PAGE_SIZE
  {
    x - x % PAGE_SIZE
  }

  /** klfree's first step: a page-aligned pointer (one klvalloc returned) moves back one byte. */
  function Adjusted(ptr: u32): u32 {
    if ptr % PAGE_SIZE == 0 && ptr > 0 then ptr - 1 else ptr
  }

  /** The address of cell k of a small page of bin c whose header is at h. */
  function CellAt(h: nat, c: nat, k: nat): nat
    requires c < BIG_BIN
  {
    h + SMALL_HEADER + k * CellSize(c)
  }

  /** x is one of the LastCell(c) + 1 cells of a small page of bin c whose header is at h. */
  ghost predicate IsCell(h: nat, c: nat, x: nat)
    requires c < BIG_BIN
  {
    exists k :: 0 <= k <= LastCell(c) && x == CellAt(h, c, k)
  }

  /** A cell lies past the page's header and ends inside the page. */
  lemma CellBounds(h: nat, c: nat, x: nat)
    requires c < BIG_BIN && IsCell(h, c, x)
    ensures h + SMALL_HEADER <= x && x + CellSize(c) <= h + PAGE_SIZE
  {
    var k :| 0 <= k <= LastCell(c) && x == CellAt(h, c, k);
    CellIndexBound(h, c, k);
  }

  /** Cell k of a page, for k up to LastCell(c), ends inside the page. */
  lemma CellIndexBound(h: nat, c: nat, k: nat)
    requires c < BIG_BIN && k <= LastCell(c)
    ensures CellAt(h, c, k) + CellSize(c) <= h + PAGE_SIZE
  {
    var cell := CellSize(c);
    var q := (PAGE_SIZE - SMALL_HEADER) / cell;
    assert q * cell <= PAGE_SIZE - SMALL_HEADER;
    MulLeq(k + 1, q, cell);
  }

  lemma MulLeq(a: nat, b: nat, m: nat)
    requires a <= b
    ensures a * m <= b * m
  {
  }

  /** The cells of a fresh small page of bin c at h, in ascending address order. */
  function Cells(h: u32, c: nat): (r: seq<u32>)
    requires c < BIG_BIN && h + PAGE_SIZE <= U32_LIMIT
    ensures |r| == LastCell(c) + 1
    ensures forall k :: 0 <= k < |r| ==> r[k] == CellAt(h, c, k)
  {
    seq(LastCell(c) + 1, k requires 0 <= k <= LastCell(c) => CellWord(h, c, k))
  }

  /** CellAt as a 32-bit address, for a page that ends within the address space. */
  function CellWord(h: u32, c: nat, k: nat): (x: u32)
    requires c < BIG_BIN && h + PAGE_SIZE <= U32_LIMIT && k <= LastCell(c)
    ensures x == CellAt(h, c, k)
  {
    CellIndexBound(h, c, k);
    CellAt(h, c, k) as u32
  }

  // ---- The shape of the allocator's words ----

  /**
   * The words word thread the addresses s from top: the word at each address holds the next
   * one, the word at the last holds NULL, and top is NULL exactly when s is empty.
   */
  ghost predicate Threads(top: u32, word: map<u32, u32>, s: seq<u32>) {
    && top == SkipList.At(s, 0)
    && forall j {:trigger word[s[j]]} {:trigger s[j] in word} :: 0 <= j < |s| ==>
         s[j] in word && word[s[j]] == SkipList.At(s, j + 1)
  }

  ghost predicate Distinct(s: seq<u32>) {
    forall i, j :: 0 <= i < j < |s| ==> s[i] != s[j]
  }

  /** The bytes a header at h spans: one page for a small bin, header and data for a big block. */
  function Extent(size: map<u32, u32>, h: u32): nat
    requires h in size
  {
    if size[h] < BIG_BIN then PAGE_SIZE else size[h] + BIG_HEADER
  }

  /** A small page: its size field is the bin and its free cells are cells of that bin. */
  ghost predicate SmallPage(size: map<u32, u32>, stacks: map<u32, seq<u32>>, h: u32)
    requires h in size && h in stacks && size[h] < BIG_BIN
  {
    forall x :: x in stacks[h] ==> IsCell(h, size[h], x)
  }

  /**
   * A big block: its size field is the usable size, header and data fill whole pages, and its
   * stack holds the one cell right after the header while the block is free.
   */
  ghost predicate BigBlock(size: map<u32, u32>, stacks: map<u32, seq<u32>>, h: u32)
    requires h in size && h in stacks
  {
    && size[h] > NUM_BINS && (size[h] + BIG_HEADER) % PAGE_SIZE == 0
    && (stacks[h] == [] || stacks[h] == [h + BIG_HEADER])
  }

  /** Every header carries the magic and the fields of its kind and lies below the break. */
  ghost predicate Headers(size: map<u32, u32>, magic: map<u32, u32>, head: map<u32, u32>, next: map<u32, u32>,
                          stacks: map<u32, seq<u32>>, start: nat, brk: nat)
  {
    && (forall h :: h in magic ==> h in size)
    && forall h :: h in size ==>
         && h in magic && magic[h] == BIN_MAGIC && h in head && h in next && h in stacks
         && h % PAGE_SIZE == 0 && 0 < start <= h && h + Extent(size, h) <= brk
         && (size[h] < BIG_BIN ==> SmallPage(size, stacks, h))
         && (size[h] >= BIG_BIN ==> BigBlock(size, stacks, h))
  }

  /** The head field and the cells' first words thread every header's free stack. */
  ghost predicate StacksOk(size: map<u32, u32>, head: map<u32, u32>, link: map<u32, u32>, stacks: map<u32, seq<u32>>) {
    forall h :: h in size && h in head && h in stacks ==> Threads(head[h], link, stacks[h]) && Distinct(stacks[h])
  }

  /** The page list of bin c: threaded by next from top, pages of bin c with free cells. */
  ghost predicate PageList(top: u32, next: map<u32, u32>, size: map<u32, u32>, stacks: map<u32, seq<u32>>,
                           c: nat, L: seq<u32>)
  {
    && Threads(top, next, L) && Distinct(L)
    && forall h :: h in L ==> h in size && h in stacks && size[h] == c && stacks[h] != []
  }

  /** A small page is on the list of its bin exactly when it has a free cell. */
  ghost predicate PagesOk(first: seq<u32>, next: map<u32, u32>, size: map<u32, u32>, stacks: map<u32, seq<u32>>,
                          pages: seq<seq<u32>>)
  {
    && |first| == SMALL_BINS && |pages| == SMALL_BINS
    && (forall c :: 0 <= c < SMALL_BINS ==> PageList(first[c], next, size, stacks, c, pages[c]))
    && (forall h :: h in size && h in stacks && size[h] < BIG_BIN && stacks[h] != [] ==> h in pages[size[h]])
  }

  /**
   * The skip list holds exactly the free big blocks, every big header has a node's shape, and
   * forward pointers are kept only by the sentinel and by headers.
   */
  ghost predicate BigFree(size: map<u32, u32>, stacks: map<u32, seq<u32>>, forward: map<u32, seq<u32>>, free: seq<u32>) {
    && (forall h :: h in free ==> h in size && h in stacks && size[h] >= BIG_BIN && stacks[h] != [])
    && (forall h :: h in size && h in stacks && size[h] >= BIG_BIN && stacks[h] != [] ==> h in free)
    && (forall h :: h in size && size[h] >= BIG_BIN ==> SkipList.Node(size, forward, h))
    && (forall h :: h in forward ==> h == SkipList.SENTINEL || h in size)
  }

  /**
   * The physical chain of big blocks, newest first: prev threads it from newest, next points
   * back to the newer neighbour, addresses fall along it, and it holds every big block.
   */
  ghost predicate ChainOk(size: map<u32, u32>, prev: map<u32, u32>, next: map<u32, u32>, newest: u32, chain: seq<u32>) {
    && Threads(newest, prev, chain)
    && (forall j :: 0 <= j < |chain| ==> chain[j] in next && next[chain[j]] == if j == 0 then NULL else chain[j - 1])
    && (forall i, j :: 0 <= i < j < |chain| ==> chain[j] < chain[i])
    && (forall h :: h in chain ==> h in size && size[h] >= BIG_BIN)
    && (forall h :: h in size && size[h] >= BIG_BIN ==> h in chain)
  }

  /** Headers do not overlap: each one's extent ends at or before the next header. */
  ghost predicate Disjoint(size: map<u32, u32>) {
    forall a, b :: a in size && b in size && a < b ==> a + Extent(size, a) <= b
  }

  /** A page-aligned h is the header of every address inside its page. */
  lemma HeaderOfIn(h: u32, x: u32)
    requires h % PAGE_SIZE == 0 && h <= x < h + PAGE_SIZE
    ensures HeaderOf(x) == h
  {
  }

  /** One round of FormatPage's loop keeps its invariants. */
  lemma FormatStep(link0: map<u32, u32>, link: map<u32, u32>, h: u32, c: nat, i: nat)
    requires c < BIG_BIN && h % PAGE_SIZE == 0 && h + PAGE_SIZE <= U32_LIMIT && i < LastCell(c)
    requires forall k :: 0 <= k < i ==> CellWord(h, c, k) in link && link[CellWord(h, c, k)] == CellWord(h, c, k + 1)
    requires forall x :: x in link0 && HeaderOf(x) != h ==> x in link && link[x] == link0[x]
    ensures var link' := link[CellWord(h, c, i) := CellWord(h, c, i + 1)];
      && (forall k :: 0 <= k < i + 1 ==> CellWord(h, c, k) in link' && link'[CellWord(h, c, k)] == CellWord(h, c, k + 1))
      && (forall x :: x in link0 && HeaderOf(x) != h ==> x in link' && link'[x] == link0[x])
  {
    CellInPage(h, c, i);
    forall k | 0 <= k < i
      ensures CellWord(h, c, k) != CellWord(h, c, i)
    {
      CellAtMono(h, c, k, i);
    }
  }

  /** The loop's last write, NULL into the last cell, completes the threads. */
  lemma FormatEnd(link0: map<u32, u32>, link: map<u32, u32>, h: u32, c: nat)
    requires c < BIG_BIN && h % PAGE_SIZE == 0 && h + PAGE_SIZE <= U32_LIMIT
    requires forall k :: 0 <= k < LastCell(c) ==> CellWord(h, c, k) in link && link[CellWord(h, c, k)] == CellWord(h, c, k + 1)
    requires forall x :: x in link0 && HeaderOf(x) != h ==> x in link && link[x] == link0[x]
    ensures var link' := link[CellWord(h, c, LastCell(c)) := NULL];
      && Threads(h + SMALL_HEADER, link', Cells(h, c))
      && (forall x :: x in link0 && HeaderOf(x) != h ==> x in link' && link'[x] == link0[x])
  {
    var last := LastCell(c);
    CellInPage(h, c, last);
    forall k | 0 <= k < last
      ensures CellWord(h, c, k) != CellWord(h, c, last)
    {
      CellAtMono(h, c, k, last);
    }
    FormattedThreads(link[CellWord(h, c, last) := NULL], h, c);
  }

  /**
   * &base[i << c] for the u32 pointer base just past a small header of bin c: the address four
   * bytes times i * 2^c past base, which is cell i.
   */
  function WordAt(base: u32, c: nat, i: nat): (x: u32)
    requires c < BIG_BIN && base >= SMALL_HEADER && base - SMALL_HEADER + PAGE_SIZE <= U32_LIMIT && i <= LastCell(c)
    ensures x == CellWord(base - SMALL_HEADER, c, i)
  {
    WordAddress(base - SMALL_HEADER, c, i);
    (base + 4 * (i * Pow2(c))) as u32
  }

  /** Word i << c of the cell area, four bytes per word, is cell i. */
  lemma WordAddress(h: u32, c: nat, i: nat)
    requires c < BIG_BIN && h + PAGE_SIZE <= U32_LIMIT && i <= LastCell(c)
    ensures h + SMALL_HEADER + 4 * (i * Pow2(c)) == CellWord(h, c, i)
  {
    var p := Pow2(c);
    assert Pow2(2 + c) == 4 * p by {
      Pow2Add(2, c);
      assert Pow2(2) == 4;
    }
    assert CellSize(c) == 4 * p;
    MulFour(i, p);
  }

  lemma MulFour(i: nat, p: nat)
    ensures i * (4 * p) == 4 * (i * p)
  {
  }

  /** Cell i lies in the page of h. */
  lemma CellInPage(h: u32, c: nat, i: nat)
    requires c < BIG_BIN && h % PAGE_SIZE == 0 && h + PAGE_SIZE <= U32_LIMIT && i <= LastCell(c)
    ensures HeaderOf(CellWord(h, c, i)) == h && h < CellWord(h, c, i)
  {
    CellIndexBound(h, c, i);
    HeaderOfIn(h, CellWord(h, c, i));
  }

  lemma CellAtMono(h: nat, c: nat, k: nat, i: nat)
    requires c < BIG_BIN && k < i
    ensures CellAt(h, c, k) + CellSize(c) <= CellAt(h, c, i)
  {
    MulLeq(k + 1, i, CellSize(c));
  }

  /** The words the loop leaves thread the page's cells in ascending order. */
  lemma FormattedThreads(link: map<u32, u32>, h: u32, c: nat)
    requires c < BIG_BIN && h + PAGE_SIZE <= U32_LIMIT
    requires forall k :: 0 <= k < LastCell(c) ==> CellWord(h, c, k) in link && link[CellWord(h, c, k)] == CellWord(h, c, k + 1)
    requires CellWord(h, c, LastCell(c)) in link && link[CellWord(h, c, LastCell(c))] == NULL
    ensures Threads(h + SMALL_HEADER, link, Cells(h, c))
  {
    var cells := Cells(h, c);
    forall j | 0 <= j < |cells|
      ensures cells[j] in link && link[cells[j]] == SkipList.At(cells, j + 1)
    {
      assert cells[j] == CellWord(h, c, j);
      if j + 1 < |cells| {
        assert cells[j + 1] == CellWord(h, c, j + 1);
      }
    }
  }

  // ---- Threaded stacks ----

  /** Popping a threaded stack: the word at its top threads the rest. */
  lemma ThreadsTail(top: u32, word: map<u32, u32>, s: seq<u32>)
    requires Threads(top, word, s) && s != []
    ensures top == s[0] && s[0] in word && Threads(word[s[0]], word, s[1..])
  {
    assert word[s[0]] == SkipList.At(s, 1);
    var t := s[1..];
    forall j | 0 <= j < |t|
      ensures t[j] in word && word[t[j]] == SkipList.At(t, j + 1)
    {
      assert t[j] == s[j + 1];
      assert word[s[j + 1]] == SkipList.At(s, j + 2);
    }
  }

  /** Pushing x, whose word then holds the old top, on a threaded stack that does not hold x. */
  lemma ThreadsPush(top: u32, word: map<u32, u32>, s: seq<u32>, x: u32)
    requires Threads(top, word, s) && x !in s
    ensures Threads(x, word[x := top], [x] + s)
  {
    var t := [x] + s;
    var w := word[x := top];
    forall j | 0 <= j < |t|
      ensures t[j] in w && w[t[j]] == SkipList.At(t, j + 1)
    {
      if j > 0 {
        assert t[j] == s[j - 1];
        assert word[s[j - 1]] == SkipList.At(s, j);
      }
    }
  }

  /** Words that agree on the addresses of a thread thread it alike. */
  lemma ThreadsFrame(top: u32, word: map<u32, u32>, word': map<u32, u32>, s: seq<u32>)
    requires Threads(top, word, s)
    requires forall x :: x in word && x in s ==> x in word' && word'[x] == word[x]
    ensures Threads(top, word', s)
  {
    forall j | 0 <= j < |s|
      ensures s[j] in word' && word'[s[j]] == SkipList.At(s, j + 1)
    {
      assert s[j] in word && word[s[j]] == SkipList.At(s, j + 1);
    }
  }

  lemma DistinctTail(s: seq<u32>)
    requires Distinct(s) && s != []
    ensures Distinct(s[1..]) && s[0] !in s[1..]
  {
    forall i, j | 0 <= i < j < |s[1..]|
      ensures s[1..][i] != s[1..][j]
    {
      assert s[1..][i] == s[i + 1] && s[1..][j] == s[j + 1];
    }
  }

  lemma DistinctCons(x: u32, s: seq<u32>)
    requires Distinct(s) && x !in s
    ensures Distinct([x] + s)
  {
    var t := [x] + s;
    forall i, j | 0 <= i < j < |t|
      ensures t[i] != t[j]
    {
      assert t[j] == s[j - 1];
      if i > 0 {
        assert t[i] == s[i - 1];
      }
    }
  }

  /** The cells of a fresh page are cells of its bin, all different. */
  lemma CellsShape(h: u32, c: nat)
    requires c < BIG_BIN && h + PAGE_SIZE <= U32_LIMIT
    ensures Distinct(Cells(h, c))
    ensures forall x :: x in Cells(h, c) ==> IsCell(h, c, x)
  {
    var cells := Cells(h, c);
    forall i, j | 0 <= i < j < |cells|
      ensures cells[i] != cells[j]
    {
      CellAtMono(h, c, i, j);
    }
    forall x | x in cells
      ensures IsCell(h, c, x)
    {
      var k :| 0 <= k < |cells| && cells[k] == x;
      assert x == CellAt(h, c, k);
    }
  }

  /** Consecutive cells of a fresh page lie one cell size apart. */
  lemma CellsApart(h: u32, c: nat, k: nat)
    requires c < BIG_BIN && h + PAGE_SIZE <= U32_LIMIT && k + 1 < |Cells(h, c)|
    ensures Cells(h, c)[k + 1] == Cells(h, c)[k] + CellSize(c)
  {
  }

  // ---- Frames of the layout's parts ----

  /** Every free cell lies in the page of its header. */
  ghost predicate Homed(size: map<u32, u32>, stacks: map<u32, seq<u32>>) {
    forall k, x :: k in size && k in stacks && x in stacks[k] ==> HeaderOf(x) == k
  }

  lemma HomedOf(size: map<u32, u32>, magic: map<u32, u32>, head: map<u32, u32>, next: map<u32, u32>,
                stacks: map<u32, seq<u32>>, start: nat, brk: nat)
    requires Headers(size, magic, head, next, stacks, start, brk)
    ensures Homed(size, stacks)
  {
    forall k, x | k in size && k in stacks && x in stacks[k]
      ensures HeaderOf(x) == k
    {
      if size[k] < BIG_BIN {
        assert SmallPage(size, stacks, k);
        CellBounds(k, size[k], x);
      }
      HeaderOfIn(k, x);
    }
  }

  /**
   * The headers keep their shape when only header h's stack changes (within its kind), header
   * fields are written at known keys and the break grows.
   */
  lemma HeadersFrame(size: map<u32, u32>, magic: map<u32, u32>, head: map<u32, u32>, next: map<u32, u32>,
                     stacks: map<u32, seq<u32>>, start: nat, brk: nat,
                     head': map<u32, u32>, next': map<u32, u32>, stacks': map<u32, seq<u32>>, brk': nat, h: u32)
    requires Headers(size, magic, head, next, stacks, start, brk) && brk <= brk'
    requires forall k :: k in head ==> k in head'
    requires forall k :: k in next ==> k in next'
    requires forall k :: k in stacks && k != h ==> k in stacks' && stacks'[k] == stacks[k]
    requires h in size && h in stacks'
    requires size[h] < BIG_BIN ==> forall x :: x in stacks'[h] ==> IsCell(h, size[h], x)
    requires size[h] >= BIG_BIN ==> stacks'[h] == [] || stacks'[h] == [h + BIG_HEADER]
    ensures Headers(size, magic, head', next', stacks', start, brk')
  {
    forall k | k in size
      ensures k in stacks' && (size[k] < BIG_BIN ==> SmallPage(size, stacks', k))
      ensures size[k] >= BIG_BIN ==> BigBlock(size, stacks', k)
    {
      if k != h {
        assert size[k] < BIG_BIN ==> SmallPage(size, stacks, k);
        assert size[k] >= BIG_BIN ==> BigBlock(size, stacks, k);
      } else {
        assert size[k] >= BIG_BIN ==> BigBlock(size, stacks, k);
      }
    }
  }

  /** A new header h with size field v, below the new break and past every old extent. */
  lemma HeadersAdd(size: map<u32, u32>, magic: map<u32, u32>, head: map<u32, u32>, next: map<u32, u32>,
                   stacks: map<u32, seq<u32>>, start: nat, brk: nat, h: u32, v: u32,
                   head': map<u32, u32>, next': map<u32, u32>, stacks': map<u32, seq<u32>>, brk': nat)
    requires Headers(size, magic, head, next, stacks, start, brk)
    requires h !in size && h % PAGE_SIZE == 0 && 0 < start <= h && brk <= brk'
    requires h + (if v < BIG_BIN then PAGE_SIZE else v + BIG_HEADER) <= brk'
    requires forall k :: k in head ==> k in head'
    requires forall k :: k in next ==> k in next'
    requires h in head' && h in next' && h in stacks'
    requires forall k :: k in stacks && k != h ==> k in stacks' && stacks'[k] == stacks[k]
    requires v < BIG_BIN ==> forall x :: x in stacks'[h] ==> IsCell(h, v, x)
    requires v >= BIG_BIN ==> v > NUM_BINS && (v + BIG_HEADER) % PAGE_SIZE == 0 && (stacks'[h] == [] || stacks'[h] == [h + BIG_HEADER])
    ensures Headers(size[h := v], magic[h := BIN_MAGIC], head', next', stacks', start, brk')
  {
    var size' := size[h := v];
    forall k | k in size'
      ensures k in stacks' && (size'[k] < BIG_BIN ==> SmallPage(size', stacks', k))
      ensures size'[k] >= BIG_BIN ==> BigBlock(size', stacks', k)
    {
      if k != h {
        assert size[k] < BIG_BIN ==> SmallPage(size, stacks, k);
        assert size[k] >= BIG_BIN ==> BigBlock(size, stacks, k);
      }
    }
  }

  /** The stacks stay threaded when only header h's head, stack and page words change. */
  lemma StacksFrame(size: map<u32, u32>, head: map<u32, u32>, link: map<u32, u32>, stacks: map<u32, seq<u32>>,
                    size': map<u32, u32>, head': map<u32, u32>, link': map<u32, u32>, stacks': map<u32, seq<u32>>, h: u32)
    requires StacksOk(size, head, link, stacks) && Homed(size, stacks)
    requires forall k :: k in size' && k != h ==>
      k in size && k in head && k in stacks && k in head' && k in stacks' && head'[k] == head[k] && stacks'[k] == stacks[k]
    requires forall x :: x in link && HeaderOf(x) != h ==> x in link' && link'[x] == link[x]
    requires h in head' && h in stacks' && Threads(head'[h], link', stacks'[h]) && Distinct(stacks'[h])
    ensures StacksOk(size', head', link', stacks')
  {
    forall k | k in size' && k in head' && k in stacks'
      ensures Threads(head'[k], link', stacks'[k]) && Distinct(stacks'[k])
    {
      if k != h {
        assert Threads(head[k], link, stacks[k]) && Distinct(stacks[k]);
        forall x | x in link && x in stacks[k]
          ensures x in link' && link'[x] == link[x]
        {
          assert HeaderOf(x) == k;
        }
        ThreadsFrame(head[k], link, link', stacks[k]);
      }
    }
  }

  /**
   * The page lists keep their shape when no small page's next word or stack emptiness changes;
   * headers may be added, as big blocks or with empty stacks.
   */
  lemma PagesFrame(first: seq<u32>, next: map<u32, u32>, size: map<u32, u32>, stacks: map<u32, seq<u32>>,
                   pages: seq<seq<u32>>, next': map<u32, u32>, size': map<u32, u32>, stacks': map<u32, seq<u32>>)
    requires PagesOk(first, next, size, stacks, pages)
    requires forall k :: k in size ==> k in size' && size'[k] == size[k] && k in stacks && k in stacks'
    requires forall k :: k in size && size[k] < BIG_BIN && k in next ==> k in next' && next'[k] == next[k]
    requires forall k :: k in size && size[k] < BIG_BIN ==> (stacks'[k] == []) == (stacks[k] == [])
    requires forall k :: k in size' && k !in size && k in stacks' && size'[k] < BIG_BIN ==> stacks'[k] == []
    ensures PagesOk(first, next', size', stacks', pages)
  {
    forall c | 0 <= c < SMALL_BINS
      ensures PageList(first[c], next', size', stacks', c, pages[c])
    {
      assert PageList(first[c], next, size, stacks, c, pages[c]);
      ThreadsFrame(first[c], next, next', pages[c]);
    }
  }

  /** Decoupling the head page of bin c, whose stack has just been emptied. */
  lemma PagesDecouple(first: seq<u32>, next: map<u32, u32>, size: map<u32, u32>, stacks: map<u32, seq<u32>>,
                      pages: seq<seq<u32>>, c: nat, stacks': map<u32, seq<u32>>)
    requires PagesOk(first, next, size, stacks, pages) && c < SMALL_BINS && pages[c] != []
    requires forall k :: k in size ==> k in stacks
    requires forall k :: k in stacks && k != pages[c][0] ==> k in stacks' && stacks'[k] == stacks[k]
    requires pages[c][0] in stacks' && stacks'[pages[c][0]] == []
    ensures first[c] == pages[c][0] && pages[c][0] in next
    ensures PagesOk(first[c := next[pages[c][0]]], next[pages[c][0] := NULL], size, stacks', pages[c := pages[c][1..]])
  {
    var L := pages[c];
    var h := L[0];
    assert PageList(first[c], next, size, stacks, c, L);
    ThreadsTail(first[c], next, L);
    DistinctTail(L);
    var first', next', pages' := first[c := next[h]], next[h := NULL], pages[c := L[1..]];
    forall d | 0 <= d < SMALL_BINS
      ensures PageList(first'[d], next', size, stacks', d, pages'[d])
    {
      assert PageList(first[d], next, size, stacks, d, pages[d]);
      if d == c {
        ThreadsFrame(next[h], next, next', L[1..]);
      } else {
        ThreadsFrame(first[d], next, next', pages[d]);
      }
    }
    forall k | k in size && k in stacks' && size[k] < BIG_BIN && stacks'[k] != []
      ensures k in pages'[size[k]]
    {
      assert k in pages[size[k]];
      if size[k] == c {
        assert k != h;
        var q :| 0 <= q < |L| && L[q] == k;
        assert L[1..][q - 1] == k;
      }
    }
  }

  /** Putting page h, which has just got a free cell, in front of the list of bin c. */
  lemma PagesInsert(first: seq<u32>, next: map<u32, u32>, size: map<u32, u32>, stacks: map<u32, seq<u32>>,
                    pages: seq<seq<u32>>, c: nat, h: u32, stacks': map<u32, seq<u32>>)
    requires PagesOk(first, next, size, stacks, pages) && c < SMALL_BINS && h != NULL
    requires forall k :: k in size ==> k in stacks
    requires h in size ==> size[h] == c && stacks[h] == []
    requires forall k :: k in stacks && k != h ==> k in stacks' && stacks'[k] == stacks[k]
    requires h in stacks' && stacks'[h] != []
    ensures PagesOk(first[c := h], next[h := first[c]], size[h := c], stacks', pages[c := [h] + pages[c]])
  {
    var size', first', next', pages' := size[h := c], first[c := h], next[h := first[c]], pages[c := [h] + pages[c]];
    forall d | 0 <= d < SMALL_BINS
      ensures PageList(first'[d], next', size', stacks', d, pages'[d])
    {
      assert PageList(first[d], next, size, stacks, d, pages[d]);
      assert h !in pages[d];
      ThreadsFrame(first[d], next, next', pages[d]);
      if d == c {
        ThreadsPush(first[c], next', pages[c], h);
        assert next'[h := first[c]] == next';
        DistinctCons(h, pages[c]);
      }
    }
    forall k | k in size' && k in stacks' && size'[k] < BIG_BIN && stacks'[k] != []
      ensures k in pages'[size'[k]]
    {
      if k != h {
        assert k in pages[size[k]];
      }
    }
  }

  /**
   * The free big blocks stay what the skip list holds when only small pages change or new
   * headers appear, and no header loses forward pointers.
   */
  lemma BigFreeFrame(size: map<u32, u32>, stacks: map<u32, seq<u32>>, forward: map<u32, seq<u32>>, free: seq<u32>,
                     size': map<u32, u32>, stacks': map<u32, seq<u32>>, forward': map<u32, seq<u32>>)
    requires BigFree(size, stacks, forward, free)
    requires forall k :: k in forward ==> k in forward' && |forward'[k]| == |forward[k]|
    requires forall k :: k in forward' ==> k in forward || k in size'
    requires forall k :: k in size ==> k in size' && size'[k] == size[k] && k in stacks
    requires forall k :: k in size && size[k] >= BIG_BIN ==> k in stacks' && stacks'[k] == stacks[k]
    requires forall k :: k in size' && k !in size ==>
      k in stacks' && (size'[k] < BIG_BIN || (stacks'[k] == [] && SkipList.Node(size', forward', k)))
    ensures BigFree(size', stacks', forward', free)
  {
    forall k | k in size' && size'[k] >= BIG_BIN
      ensures SkipList.Node(size', forward', k)
    {
      if k in size {
        assert SkipList.Node(size, forward, k);
      }
    }
  }

  /**
   * Big block h changes hands: its stack changes and the skip list gains or loses it, so that
   * it is on the list exactly when its stack is not empty.
   */
  lemma BigFreeSwap(size: map<u32, u32>, stacks: map<u32, seq<u32>>, forward: map<u32, seq<u32>>, free: seq<u32>,
                    h: u32, stacks': map<u32, seq<u32>>, forward': map<u32, seq<u32>>, free': seq<u32>)
    requires BigFree(size, stacks, forward, free) && SkipList.Kept(forward, forward')
    requires h in size && size[h] >= BIG_BIN
    requires forall k :: k in size ==> k in stacks
    requires forall k :: k in stacks && k != h ==> k in stacks' && stacks'[k] == stacks[k]
    requires h in stacks'
    requires forall x :: x in free' <==> (x in free && x != h) || (x == h && stacks'[h] != [])
    ensures BigFree(size, stacks', forward', free')
  {
    forall k | k in size && size[k] >= BIG_BIN
      ensures SkipList.Node(size, forward', k)
    {
      assert SkipList.Node(size, forward, k);
    }
  }

  /** The physical chain is kept when only small pages are added and big blocks' next words stay. */
  lemma ChainFrame(size: map<u32, u32>, prev: map<u32, u32>, next: map<u32, u32>, newest: u32, chain: seq<u32>,
                   size': map<u32, u32>, next': map<u32, u32>)
    requires ChainOk(size, prev, next, newest, chain)
    requires forall k :: k in size ==> k in size' && size'[k] == size[k]
    requires forall k :: k in size' && k !in size ==> size'[k] < BIG_BIN
    requires forall k :: k in size && size[k] >= BIG_BIN && k in next ==> k in next' && next'[k] == next[k]
    ensures ChainOk(size', prev, next', newest, chain)
  {
  }

  /** A new big block h above every header becomes the newest block of the chain. */
  lemma ChainAdd(size: map<u32, u32>, prev: map<u32, u32>, next: map<u32, u32>, newest: u32, chain: seq<u32>,
                 h: u32, v: u32)
    requires ChainOk(size, prev, next, newest, chain) && h != NULL && v >= BIG_BIN
    requires forall k :: k in size ==> NULL < k < h
    ensures var next' := (if newest != NULL then next[newest := h] else next)[h := NULL];
      ChainOk(size[h := v], prev[h := newest], next', h, [h] + chain)
  {
    var next' := (if newest != NULL then next[newest := h] else next)[h := NULL];
    var chain' := [h] + chain;
    var size' := size[h := v];
    ThreadsPush(newest, prev, chain, h);
    forall j | 0 <= j < |chain'|
      ensures chain'[j] in next' && next'[chain'[j]] == if j == 0 then NULL else chain'[j - 1]
    {
      if j > 0 {
        assert chain[0] in chain && chain[0] in size;
        assert chain'[j] == chain[j - 1] && newest == chain[0] != NULL;
        if j > 1 {
          assert chain[j - 1] < chain[0] && chain[j - 1] in size;
          assert chain[j - 1] in next && next[chain[j - 1]] == chain[j - 2];
        }
      }
    }
    forall i, j | 0 <= i < j < |chain'|
      ensures chain'[j] < chain'[i]
    {
      assert chain'[j] == chain[j - 1] && chain[j - 1] in chain;
      if i > 0 {
        assert chain'[i] == chain[i - 1];
      }
    }
  }

  /** A new header past the extent of every old one keeps the headers apart. */
  lemma DisjointAdd(size: map<u32, u32>, h: u32, v: u32)
    requires Disjoint(size) && h !in size
    requires forall k :: k in size ==> k + Extent(size, k) <= h
    ensures Disjoint(size[h := v])
  {
    var size' := size[h := v];
    forall a, b | a in size' && b in size' && a < b
      ensures a + Extent(size', a) <= b
    {
      if b == h {
        assert Extent(size', a) == Extent(size, a);
      }
    }
  }
}
