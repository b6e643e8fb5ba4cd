// The whole layout of klmalloc's state (src/alloc.c) over plain values, and one lemma per step
// of malloc and free that carries it from the words before the step to the words after it.
module AllocSteps {
  import opened Types
  import opened AllocBins
  import opened AllocLayout
  import opened AllocLive
  import SkipList

  /**
   * The allocator's words are well formed: the heap region, the headers, the free stacks, the
   * page lists, the skip list's blocks and the physical chain all agree.
   */
  ghost predicate Layout(start: nat, brk: nat, size: map<u32, u32>, magic: map<u32, u32>, head: map<u32, u32>,
                         next: map<u32, u32>, link: map<u32, u32>, first: seq<u32>, prev: map<u32, u32>, newest: u32,
                         stacks: map<u32, seq<u32>>, pages: seq<seq<u32>>, chain: seq<u32>,
                         forward: map<u32, seq<u32>>, free: seq<u32>)
  {
    && 0 < start <= brk < U32_LIMIT && brk % PAGE_SIZE == 0
    && Headers(size, magic, head, next, stacks, start, brk)
    && StacksOk(size, head, link, stacks)
    && PagesOk(first, next, size, stacks, pages)
    && BigFree(size, stacks, forward, free)
    && ChainOk(size, prev, next, newest, chain)
    && Disjoint(size)
  }

  /**
   * Layout behind k unfoldings. The allocator holds the layout in this form with a depth its
   * methods do not know, so the verifier does not expand the layout's quantifiers at every step
   * of a method; the step lemmas below take and give the sealed form and open it themselves.
   */
  ghost predicate Sealed(k: nat, start: nat, brk: nat, size: map<u32, u32>, magic: map<u32, u32>, head: map<u32, u32>,
                         next: map<u32, u32>, link: map<u32, u32>, first: seq<u32>, prev: map<u32, u32>, newest: u32,
                         stacks: map<u32, seq<u32>>, pages: seq<seq<u32>>, chain: seq<u32>,
                         forward: map<u32, seq<u32>>, free: seq<u32>)
    decreases k
  {
    if k == 0 then Layout(start, brk, size, magic, head, next, link, first, prev, newest, stacks, pages, chain, forward, free)
    else Sealed(k - 1, start, brk, size, magic, head, next, link, first, prev, newest, stacks, pages, chain, forward, free)
  }

  lemma {:induction false} Open(k: nat, start: nat, brk: nat, size: map<u32, u32>, magic: map<u32, u32>, head: map<u32, u32>,
                                next: map<u32, u32>, link: map<u32, u32>, first: seq<u32>, prev: map<u32, u32>, newest: u32,
                                stacks: map<u32, seq<u32>>, pages: seq<seq<u32>>, chain: seq<u32>,
                                forward: map<u32, seq<u32>>, free: seq<u32>)
    requires Sealed(k, start, brk, size, magic, head, next, link, first, prev, newest, stacks, pages, chain, forward, free)
    ensures Layout(start, brk, size, magic, head, next, link, first, prev, newest, stacks, pages, chain, forward, free)
    decreases k
  {
    if k > 0 {
      Open(k - 1, start, brk, size, magic, head, next, link, first, prev, newest, stacks, pages, chain, forward, free);
    }
  }

  lemma {:induction false} Close(k: nat, start: nat, brk: nat, size: map<u32, u32>, magic: map<u32, u32>, head: map<u32, u32>,
                                 next: map<u32, u32>, link: map<u32, u32>, first: seq<u32>, prev: map<u32, u32>, newest: u32,
                                 stacks: map<u32, seq<u32>>, pages: seq<seq<u32>>, chain: seq<u32>,
                                 forward: map<u32, seq<u32>>, free: seq<u32>)
    requires Layout(start, brk, size, magic, head, next, link, first, prev, newest, stacks, pages, chain, forward, free)
    ensures Sealed(k, start, brk, size, magic, head, next, link, first, prev, newest, stacks, pages, chain, forward, free)
    decreases k
  {
    if k > 0 {
      Close(k - 1, start, brk, size, magic, head, next, link, first, prev, newest, stacks, pages, chain, forward, free);
    }
  }

  /**
   * The first page of a non-empty list of small bin c, and the cell on top of its stack: the
   * one the page's head names, whose word names the next cell or is NULL when it is the last.
   */
  lemma TopCell(k: nat, start: nat, brk: nat, size: map<u32, u32>, magic: map<u32, u32>, head: map<u32, u32>,
                next: map<u32, u32>, link: map<u32, u32>, first: seq<u32>, prev: map<u32, u32>, newest: u32,
                stacks: map<u32, seq<u32>>, pages: seq<seq<u32>>, chain: seq<u32>,
                forward: map<u32, seq<u32>>, free: seq<u32>, c: nat)
    requires Sealed(k, start, brk, size, magic, head, next, link, first, prev, newest, stacks, pages, chain, forward, free)
    requires |first| == SMALL_BINS && |pages| == SMALL_BINS && c < SMALL_BINS && first[c] != NULL
    ensures var h := first[c];
      && pages[c] != [] && h == pages[c][0] && h != NULL && h in size && size[h] as nat == c
      && h in head && h in next && h in stacks && stacks[h] != [] && head[h] == stacks[h][0] && head[h] in link
      && HeaderOf(head[h]) == h && h + SMALL_HEADER <= head[h] < h + PAGE_SIZE
      && (link[head[h]] == NULL <==> |stacks[h]| == 1)
  {
    Open(k, start, brk, size, magic, head, next, link, first, prev, newest, stacks, pages, chain, forward, free);
    var L := pages[c];
    assert PageList(first[c], next, size, stacks, c, L);
    var h := L[0];
    assert h in L;
    var s := stacks[h];
    assert Threads(head[h], link, s);
    assert SmallPage(size, stacks, h);
    assert s[0] in s;
    CellBounds(h, c, s[0]);
    HeaderOfIn(h, s[0]);
    if |s| > 1 {
      assert s[1] in s;
      CellBounds(h, c, s[1]);
    }
  }

  /**
   * A free big block on the skip list: its stack holds the one cell past its header, whose word
   * is NULL, and the block spans more than that header.
   */
  lemma FreeBlock(k: nat, start: nat, brk: nat, size: map<u32, u32>, magic: map<u32, u32>, head: map<u32, u32>,
                  next: map<u32, u32>, link: map<u32, u32>, first: seq<u32>, prev: map<u32, u32>, newest: u32,
                  stacks: map<u32, seq<u32>>, pages: seq<seq<u32>>, chain: seq<u32>,
                  forward: map<u32, seq<u32>>, free: seq<u32>, h: u32)
    requires Sealed(k, start, brk, size, magic, head, next, link, first, prev, newest, stacks, pages, chain, forward, free)
    requires h in free
    ensures h in size && size[h] > NUM_BINS && h in head && h in stacks && h != NULL
    ensures stacks[h] == [h + BIG_HEADER] && head[h] == h + BIG_HEADER && head[h] in link && link[head[h]] == NULL
    ensures head[h] < h + size[h]
  {
    Open(k, start, brk, size, magic, head, next, link, first, prev, newest, stacks, pages, chain, forward, free);
    assert BigBlock(size, stacks, h);
    assert Threads(head[h], link, stacks[h]);
    assert stacks[h][0] == h + BIG_HEADER;
  }

  /** malloc's small-bin pop from the first page of bin c, and the decouple when it empties it. */
  lemma TakeCellStep(k: nat, start: nat, brk: nat, size: map<u32, u32>, magic: map<u32, u32>, head: map<u32, u32>,
                     next: map<u32, u32>, link: map<u32, u32>, first: seq<u32>, prev: map<u32, u32>, newest: u32,
                     stacks: map<u32, seq<u32>>, pages: seq<seq<u32>>, chain: seq<u32>,
                     forward: map<u32, seq<u32>>, free: seq<u32>, c: nat,
                     head': map<u32, u32>, next': map<u32, u32>, first': seq<u32>,
                     stacks': map<u32, seq<u32>>, pages': seq<seq<u32>>)
    requires Sealed(k, start, brk, size, magic, head, next, link, first, prev, newest, stacks, pages, chain, forward, free)
    requires |first| == SMALL_BINS && |pages| == SMALL_BINS && c < SMALL_BINS && first[c] != NULL
    requires var h := first[c];
      && h in head && h in stacks && head[h] in link && stacks[h] != [] && h in next
      && head' == head[h := link[head[h]]] && stacks' == stacks[h := stacks[h][1..]]
      && if |stacks[h]| == 1 then first' == first[c := next[h]] && next' == next[h := NULL] && pages[c] != [] && pages' == pages[c := pages[c][1..]]
         else first' == first && next' == next && pages' == pages
    ensures Sealed(k, start, brk, size, magic, head', next', link, first', prev, newest, stacks', pages', chain, forward, free)
    ensures var x := stacks[first[c]][0];
      && !Live(size, stacks, x) && forall q :: Live(size, stacks', q) <==> Live(size, stacks, q) || q == x
  {
    TakeCellSealed(k, start, brk, size, magic, head, next, link, first, prev, newest, stacks, pages, chain, forward, free, c, head', next', first', stacks', pages');
    TakeCellLive(k, start, brk, size, magic, head, next, link, first, prev, newest, stacks, pages, chain, forward, free, c);
  }

  /** The Sealed half of TakeCellStep. */
  lemma TakeCellSealed(k: nat, start: nat, brk: nat, size: map<u32, u32>, magic: map<u32, u32>, head: map<u32, u32>,
                     next: map<u32, u32>, link: map<u32, u32>, first: seq<u32>, prev: map<u32, u32>, newest: u32,
                     stacks: map<u32, seq<u32>>, pages: seq<seq<u32>>, chain: seq<u32>,
                     forward: map<u32, seq<u32>>, free: seq<u32>, c: nat,
                     head': map<u32, u32>, next': map<u32, u32>, first': seq<u32>,
                     stacks': map<u32, seq<u32>>, pages': seq<seq<u32>>)
    requires Sealed(k, start, brk, size, magic, head, next, link, first, prev, newest, stacks, pages, chain, forward, free)
    requires |first| == SMALL_BINS && |pages| == SMALL_BINS && c < SMALL_BINS && first[c] != NULL
    requires var h := first[c];
      && h in head && h in stacks && head[h] in link && stacks[h] != [] && h in next
      && head' == head[h := link[head[h]]] && stacks' == stacks[h := stacks[h][1..]]
      && if |stacks[h]| == 1 then first' == first[c := next[h]] && next' == next[h := NULL] && pages[c] != [] && pages' == pages[c := pages[c][1..]]
         else first' == first && next' == next && pages' == pages
    ensures Sealed(k, start, brk, size, magic, head', next', link, first', prev, newest, stacks', pages', chain, forward, free)
  {
    Open(k, start, brk, size, magic, head, next, link, first, prev, newest, stacks, pages, chain, forward, free);
    TopCell(k, start, brk, size, magic, head, next, link, first, prev, newest, stacks, pages, chain, forward, free, c);
    var h := first[c];
    var s := stacks[h];
    ThreadsTail(head[h], link, s);
    DistinctTail(s);
    assert SmallPage(size, stacks, h);
    forall x | x in s[1..]
      ensures IsCell(h, size[h], x)
    {
      assert x in s;
    }
    HeadersFrame(size, magic, head, next, stacks, start, brk, head', next', stacks', brk, h);
    HomedOf(size, magic, head, next, stacks, start, brk);
    StacksFrame(size, head, link, stacks, size, head', link, stacks', h);
    if |s| == 1 {
      PagesDecouple(first, next, size, stacks, pages, c, stacks');
    } else {
      PagesFrame(first, next, size, stacks, pages, next', size, stacks');
    }
    BigFreeFrame(size, stacks, forward, free, size, stacks', forward);
    ChainFrame(size, prev, next, newest, chain, size, next');
    Close(k, start, brk, size, magic, head', next', link, first', prev, newest, stacks', pages', chain, forward, free);
  }

  /** The liveness half of TakeCellStep: popping the top cell of bin c's first page makes exactly that cell live. */
  lemma TakeCellLive(k: nat, start: nat, brk: nat, size: map<u32, u32>, magic: map<u32, u32>, head: map<u32, u32>,
                     next: map<u32, u32>, link: map<u32, u32>, first: seq<u32>, prev: map<u32, u32>, newest: u32,
                     stacks: map<u32, seq<u32>>, pages: seq<seq<u32>>, chain: seq<u32>,
                     forward: map<u32, seq<u32>>, free: seq<u32>, c: nat)
    requires Sealed(k, start, brk, size, magic, head, next, link, first, prev, newest, stacks, pages, chain, forward, free)
    requires |first| == SMALL_BINS && |pages| == SMALL_BINS && c < SMALL_BINS && first[c] != NULL
    ensures first[c] in stacks && stacks[first[c]] != []
    ensures var h := first[c]; var x := stacks[h][0];
      && !Live(size, stacks, x) && forall q :: Live(size, stacks[h := stacks[h][1..]], q) <==> Live(size, stacks, q) || q == x
  {
    Open(k, start, brk, size, magic, head, next, link, first, prev, newest, stacks, pages, chain, forward, free);
    TopCell(k, start, brk, size, magic, head, next, link, first, prev, newest, stacks, pages, chain, forward, free, c);
    var h := first[c];
    var s := stacks[h];
    assert SmallPage(size, stacks, h);
    assert s[0] in s;
    LivePop(size, stacks, h, s[0]);
  }

  /**
   * malloc's small-bin miss: a fresh page h at the break becomes a page of bin c with every
   * cell free, at the front of the bin's list.
   */
  lemma NewPageStep(k: nat, start: nat, brk: nat, size: map<u32, u32>, magic: map<u32, u32>, head: map<u32, u32>,
                    next: map<u32, u32>, link: map<u32, u32>, first: seq<u32>, prev: map<u32, u32>, newest: u32,
                    stacks: map<u32, seq<u32>>, pages: seq<seq<u32>>, chain: seq<u32>,
                    forward: map<u32, seq<u32>>, free: seq<u32>, c: nat, h: u32, link': map<u32, u32>)
    requires Sealed(k, start, brk, size, magic, head, next, link, first, prev, newest, stacks, pages, chain, forward, free)
    requires |first| == SMALL_BINS && |pages| == SMALL_BINS && c < SMALL_BINS && h as nat == brk && brk + PAGE_SIZE < U32_LIMIT
    requires Threads(h + SMALL_HEADER, link', Cells(h, c))
    requires forall x :: x in link && HeaderOf(x) != h ==> x in link' && link'[x] == link[x]
    ensures Sealed(k, start, brk + PAGE_SIZE, size[h := c as u32], magic[h := BIN_MAGIC], head[h := h + SMALL_HEADER],
                   next[h := first[c]], link', first[c := h], prev, newest, stacks[h := Cells(h, c)],
                   pages[c := [h] + pages[c]], chain, forward, free)
    ensures h !in size && forall q :: Live(size[h := c as u32], stacks[h := Cells(h, c)], q) <==> Live(size, stacks, q)
  {
    Open(k, start, brk, size, magic, head, next, link, first, prev, newest, stacks, pages, chain, forward, free);
    AlignedSum(brk, PAGE_SIZE);
    BelowBreak(size, magic, head, next, stacks, start, brk);
    NewPageHeaders(size, magic, head, next, link, stacks, start, brk, c, h, link', next[h := first[c]]);
    NewPageLists(first, next, size, stacks, pages, prev, newest, chain, forward, free, c, h);
    LiveAdd(size, stacks, h, c as u32, Cells(h, c));
    Close(k, start, brk + PAGE_SIZE, size[h := c as u32], magic[h := BIN_MAGIC], head[h := h + SMALL_HEADER], next[h := first[c]], link', first[c := h], prev, newest, stacks[h := Cells(h, c)], pages[c := [h] + pages[c]], chain, forward, free);
  }

  /** The page lists, the skip list's blocks and the chain once the fresh small page h is in place. */
  lemma NewPageLists(first: seq<u32>, next: map<u32, u32>, size: map<u32, u32>, stacks: map<u32, seq<u32>>,
                     pages: seq<seq<u32>>, prev: map<u32, u32>, newest: u32, chain: seq<u32>,
                     forward: map<u32, seq<u32>>, free: seq<u32>, c: nat, h: u32)
    requires PagesOk(first, next, size, stacks, pages) && BigFree(size, stacks, forward, free)
    requires ChainOk(size, prev, next, newest, chain)
    requires h != NULL && h !in size && c < SMALL_BINS && h + PAGE_SIZE <= U32_LIMIT
    requires forall k :: k in size ==> k in stacks
    ensures var size', stacks' := size[h := c as u32], stacks[h := Cells(h, c)];
      && PagesOk(first[c := h], next[h := first[c]], size', stacks', pages[c := [h] + pages[c]])
      && BigFree(size', stacks', forward, free)
      && ChainOk(size', prev, next[h := first[c]], newest, chain)
  {
    var size' := size[h := c as u32];
    var stacks' := stacks[h := Cells(h, c)];
    CellsShape(h, c);
    PagesInsert(first, next, size, stacks, pages, c, h, stacks');
    BigFreeFrame(size, stacks, forward, free, size', stacks', forward);
    ChainFrame(size, prev, next, newest, chain, size', next[h := first[c]]);
  }

  /** The headers, stacks and extents once the fresh small page h is in place. */
  lemma NewPageHeaders(size: map<u32, u32>, magic: map<u32, u32>, head: map<u32, u32>, next: map<u32, u32>,
                       link: map<u32, u32>, stacks: map<u32, seq<u32>>, start: nat, brk: nat, c: nat, h: u32,
                       link': map<u32, u32>, next': map<u32, u32>)
    requires Headers(size, magic, head, next, stacks, start, brk) && StacksOk(size, head, link, stacks) && Disjoint(size)
    requires (forall k :: k in next ==> k in next') && h in next'
    requires forall k :: k in size ==> NULL < k && k + Extent(size, k) <= brk
    requires 0 < start <= brk && h as nat == brk && brk % PAGE_SIZE == 0 && brk + PAGE_SIZE < U32_LIMIT && c < SMALL_BINS
    requires Threads(h + SMALL_HEADER, link', Cells(h, c))
    requires forall x :: x in link && HeaderOf(x) != h ==> x in link' && link'[x] == link[x]
    ensures var size', stacks' := size[h := c as u32], stacks[h := Cells(h, c)];
      && Headers(size', magic[h := BIN_MAGIC], head[h := h + SMALL_HEADER], next', stacks', start, brk + PAGE_SIZE)
      && StacksOk(size', head[h := h + SMALL_HEADER], link', stacks')
      && Disjoint(size')
  {
    var size' := size[h := c as u32];
    var head' := head[h := h + SMALL_HEADER];
    var stacks' := stacks[h := Cells(h, c)];
    CellsShape(h, c);
    HeadersAdd(size, magic, head, next, stacks, start, brk, h, c as u32, head', next', stacks', brk + PAGE_SIZE);
    HomedOf(size, magic, head, next, stacks, start, brk);
    StacksFrame(size, head, link, stacks, size', head', link', stacks', h);
    DisjointAdd(size, h, c as u32);
  }

  /** malloc's big-bin hit: free block h leaves the skip list and its one cell is popped. */
  lemma TakeBlockStep(k: nat, start: nat, brk: nat, size: map<u32, u32>, magic: map<u32, u32>, head: map<u32, u32>,
                      next: map<u32, u32>, link: map<u32, u32>, first: seq<u32>, prev: map<u32, u32>, newest: u32,
                      stacks: map<u32, seq<u32>>, pages: seq<seq<u32>>, chain: seq<u32>,
                      forward: map<u32, seq<u32>>, free: seq<u32>, h: u32,
                      forward': map<u32, seq<u32>>, free': seq<u32>)
    requires Sealed(k, start, brk, size, magic, head, next, link, first, prev, newest, stacks, pages, chain, forward, free)
    requires h in free && SkipList.Kept(forward, forward')
    requires forall x :: x in free' <==> x in free && x != h
    ensures h in head && head[h] in link
    ensures Sealed(k, start, brk, size, magic, head[h := link[head[h]]], next, link, first, prev, newest, stacks[h := []],
                   pages, chain, forward', free')
    ensures h + BIG_HEADER < U32_LIMIT && HeaderOf(h + BIG_HEADER) == h
    ensures !Live(size, stacks, h + BIG_HEADER)
    ensures forall q :: Live(size, stacks[h := []], q) <==> Live(size, stacks, q) || q as nat == h + BIG_HEADER
  {
    Open(k, start, brk, size, magic, head, next, link, first, prev, newest, stacks, pages, chain, forward, free);
    FreeBlock(k, start, brk, size, magic, head, next, link, first, prev, newest, stacks, pages, chain, forward, free, h);
    var head' := head[h := link[head[h]]];
    var stacks' := stacks[h := []];
    HeadersFrame(size, magic, head, next, stacks, start, brk, head', next, stacks', brk, h);
    HomedOf(size, magic, head, next, stacks, start, brk);
    StacksFrame(size, head, link, stacks, size, head', link, stacks', h);
    PagesFrame(first, next, size, stacks, pages, next, size, stacks');
    BigFreeSwap(size, stacks, forward, free, h, stacks', forward', free');
    Close(k, start, brk, size, magic, head[h := link[head[h]]], next, link, first, prev, newest, stacks[h := []], pages, chain, forward', free');
    HeaderOfIn(h, head[h]);
    LivePop(size, stacks, h, head[h]);
  }

  /**
   * malloc's big-bin miss: a fresh block h of v usable bytes at the break, allocated, with zeroed
   * forward pointers, linked in as the newest block of the physical chain.
   */
  lemma NewBlockStep(k: nat, start: nat, brk: nat, size: map<u32, u32>, magic: map<u32, u32>, head: map<u32, u32>,
                     next: map<u32, u32>, link: map<u32, u32>, first: seq<u32>, prev: map<u32, u32>, newest: u32,
                     stacks: map<u32, seq<u32>>, pages: seq<seq<u32>>, chain: seq<u32>,
                     forward: map<u32, seq<u32>>, free: seq<u32>, h: u32, v: u32)
    requires Sealed(k, start, brk, size, magic, head, next, link, first, prev, newest, stacks, pages, chain, forward, free)
    requires h as nat == brk && v > NUM_BINS && (v + BIG_HEADER) % PAGE_SIZE == 0 && brk + v + BIG_HEADER < U32_LIMIT
    ensures var next' := (if newest != NULL then next[newest := h] else next)[h := NULL];
      Sealed(k, start, brk + v + BIG_HEADER, size[h := v], magic[h := BIN_MAGIC], head[h := NULL], next', link, first,
             prev[h := newest], h, stacks[h := []], pages, [h] + chain, forward[h := SkipList.Nulls()], free)
    ensures h + BIG_HEADER < U32_LIMIT && HeaderOf(h + BIG_HEADER) == h && h !in size && h !in free
    ensures forall q :: Live(size[h := v], stacks[h := []], q) <==> Live(size, stacks, q) || q as nat == h + BIG_HEADER
  {
    Open(k, start, brk, size, magic, head, next, link, first, prev, newest, stacks, pages, chain, forward, free);
    var next' := (if newest != NULL then next[newest := h] else next)[h := NULL];
    NewBlockLayout(start, brk, size, magic, head, next, link, first, prev, newest, stacks, pages, chain, forward, free,
                   h, v, next');
    Close(k, start, brk + v + BIG_HEADER, size[h := v], magic[h := BIN_MAGIC], head[h := NULL], next', link, first,
          prev[h := newest], h, stacks[h := []], pages, [h] + chain, forward[h := SkipList.Nulls()], free);
    assert v as nat >= BIG_BIN;
    LiveAdd(size, stacks, h, v, []);
    HeaderOfIn(h, h + BIG_HEADER);
  }

  /** The layout with the fresh big block h linked in as the newest block of the chain. */
  lemma NewBlockLayout(start: nat, brk: nat, size: map<u32, u32>, magic: map<u32, u32>, head: map<u32, u32>,
                       next: map<u32, u32>, link: map<u32, u32>, first: seq<u32>, prev: map<u32, u32>, newest: u32,
                       stacks: map<u32, seq<u32>>, pages: seq<seq<u32>>, chain: seq<u32>,
                       forward: map<u32, seq<u32>>, free: seq<u32>, h: u32, v: u32, next': map<u32, u32>)
    requires Layout(start, brk, size, magic, head, next, link, first, prev, newest, stacks, pages, chain, forward, free)
    requires h as nat == brk && v > NUM_BINS && (v + BIG_HEADER) % PAGE_SIZE == 0 && brk + v + BIG_HEADER < U32_LIMIT
    requires next' == (if newest != NULL then next[newest := h] else next)[h := NULL]
    ensures Layout(start, brk + v + BIG_HEADER, size[h := v], magic[h := BIN_MAGIC], head[h := NULL], next', link, first,
                   prev[h := newest], h, stacks[h := []], pages, [h] + chain, forward[h := SkipList.Nulls()], free)
    ensures h !in size && h !in free
  {
    if newest != NULL {
      assert chain[0] in chain;
    }
    AlignedSum(brk, v + BIG_HEADER);
    NewBlockHeaders(size, magic, head, next, link, stacks, start, brk, h, v, next');
    BelowBreak(size, magic, head, next, stacks, start, brk);
    NewBlockLists(first, next, size, stacks, pages, prev, newest, chain, forward, free, h, v);
  }

  /** Every header lies below the break, above NULL, and has a stack. */
  lemma BelowBreak(size: map<u32, u32>, magic: map<u32, u32>, head: map<u32, u32>, next: map<u32, u32>,
                   stacks: map<u32, seq<u32>>, start: nat, brk: nat)
    requires Headers(size, magic, head, next, stacks, start, brk) && 0 < start
    ensures forall k :: k in size ==> NULL < k && k + Extent(size, k) <= brk && k < brk && k in stacks
  {
  }

  /** Two page multiples add up to a page multiple. */
  lemma AlignedSum(a: nat, b: nat)
    requires a % PAGE_SIZE == 0 && b % PAGE_SIZE == 0
    ensures (a + b) % PAGE_SIZE == 0
  {
  }

  /** The headers, stacks and extents once the fresh big block h is in place. */
  lemma NewBlockHeaders(size: map<u32, u32>, magic: map<u32, u32>, head: map<u32, u32>, next: map<u32, u32>,
                        link: map<u32, u32>, stacks: map<u32, seq<u32>>, start: nat, brk: nat, h: u32, v: u32,
                        next': map<u32, u32>)
    requires Headers(size, magic, head, next, stacks, start, brk) && StacksOk(size, head, link, stacks) && Disjoint(size)
    requires 0 < start <= brk && h as nat == brk && h % PAGE_SIZE == 0
    requires v > NUM_BINS && (v + BIG_HEADER) % PAGE_SIZE == 0 && brk + v + BIG_HEADER < U32_LIMIT
    requires forall k :: k in next ==> k in next'
    requires h in next'
    ensures Headers(size[h := v], magic[h := BIN_MAGIC], head[h := NULL], next', stacks[h := []], start, brk + v + BIG_HEADER)
    ensures StacksOk(size[h := v], head[h := NULL], link, stacks[h := []])
    ensures Disjoint(size[h := v])
  {
    assert forall k :: k in size ==> k + Extent(size, k) <= h;
    HeadersAdd(size, magic, head, next, stacks, start, brk, h, v, head[h := NULL], next', stacks[h := []], brk + v + BIG_HEADER);
    HomedOf(size, magic, head, next, stacks, start, brk);
    StacksFrame(size, head, link, stacks, size[h := v], head[h := NULL], link, stacks[h := []], h);
    DisjointAdd(size, h, v);
  }

  /** The page lists, the skip list's blocks and the chain once the fresh big block h is in place. */
  lemma NewBlockLists(first: seq<u32>, next: map<u32, u32>, size: map<u32, u32>, stacks: map<u32, seq<u32>>,
                      pages: seq<seq<u32>>, prev: map<u32, u32>, newest: u32, chain: seq<u32>,
                      forward: map<u32, seq<u32>>, free: seq<u32>, h: u32, v: u32)
    requires PagesOk(first, next, size, stacks, pages) && BigFree(size, stacks, forward, free)
    requires ChainOk(size, prev, next, newest, chain)
    requires h != NULL && h % PAGE_SIZE == 0 && v > NUM_BINS && (v + BIG_HEADER) % PAGE_SIZE == 0
    requires forall k :: k in size ==> NULL < k < h && k in stacks
    ensures var next' := (if newest != NULL then next[newest := h] else next)[h := NULL];
      && PagesOk(first, next', size[h := v], stacks[h := []], pages)
      && BigFree(size[h := v], stacks[h := []], forward[h := SkipList.Nulls()], free)
      && ChainOk(size[h := v], prev[h := newest], next', h, [h] + chain)
  {
    var next' := (if newest != NULL then next[newest := h] else next)[h := NULL];
    if newest != NULL {
      assert chain[0] in chain;
    }
    PagesFrame(first, next, size, stacks, pages, next', size[h := v], stacks[h := []]);
    BigFreeFrame(size, stacks, forward, free, size[h := v], stacks[h := []], forward[h := SkipList.Nulls()]);
    ChainAdd(size, prev, next, newest, chain, h, v);
  }

  /** A header found through its magic word: its size field tells a small page from a big block. */
  lemma MagicHeader(k: nat, start: nat, brk: nat, size: map<u32, u32>, magic: map<u32, u32>, head: map<u32, u32>,
                    next: map<u32, u32>, link: map<u32, u32>, first: seq<u32>, prev: map<u32, u32>, newest: u32,
                    stacks: map<u32, seq<u32>>, pages: seq<seq<u32>>, chain: seq<u32>,
                    forward: map<u32, seq<u32>>, free: seq<u32>, h: u32)
    requires Sealed(k, start, brk, size, magic, head, next, link, first, prev, newest, stacks, pages, chain, forward, free)
    requires h in magic
    ensures h in size && magic[h] == BIN_MAGIC && (size[h] < BIG_BIN || size[h] as nat > NUM_BINS)
    ensures h in head && h in stacks && (head[h] == NULL <==> stacks[h] == [])
  {
    Open(k, start, brk, size, magic, head, next, link, first, prev, newest, stacks, pages, chain, forward, free);
    var s := stacks[h];
    assert Threads(head[h], link, s);
    if s != [] && size[h] < BIG_BIN {
      assert SmallPage(size, stacks, h);
      assert s[0] in s;
      CellBounds(h, size[h] as nat, s[0]);
    }
  }

  /** A live pointer is never page aligned and its page carries the magic word. */
  lemma LiveHeader(k: nat, start: nat, brk: nat, size: map<u32, u32>, magic: map<u32, u32>, head: map<u32, u32>,
                   next: map<u32, u32>, link: map<u32, u32>, first: seq<u32>, prev: map<u32, u32>, newest: u32,
                   stacks: map<u32, seq<u32>>, pages: seq<seq<u32>>, chain: seq<u32>,
                   forward: map<u32, seq<u32>>, free: seq<u32>, p: u32)
    requires Sealed(k, start, brk, size, magic, head, next, link, first, prev, newest, stacks, pages, chain, forward, free)
    requires Live(size, stacks, p)
    ensures HeaderOf(p) in magic && magic[HeaderOf(p)] == BIN_MAGIC && HeaderOf(p) in size && p % PAGE_SIZE != 0
    ensures size[HeaderOf(p)] as nat > NUM_BINS <==> size[HeaderOf(p)] as nat >= BIG_BIN
  {
    Open(k, start, brk, size, magic, head, next, link, first, prev, newest, stacks, pages, chain, forward, free);
    var h := HeaderOf(p);
    if size[h] < BIG_BIN {
      CellBounds(h, size[h] as nat, p);
    }
  }

  /** A live cell p of small page h: the page's head is NULL exactly when its stack is empty. */
  lemma OwnedCell(k: nat, start: nat, brk: nat, size: map<u32, u32>, magic: map<u32, u32>, head: map<u32, u32>,
                  next: map<u32, u32>, link: map<u32, u32>, first: seq<u32>, prev: map<u32, u32>, newest: u32,
                  stacks: map<u32, seq<u32>>, pages: seq<seq<u32>>, chain: seq<u32>,
                  forward: map<u32, seq<u32>>, free: seq<u32>, h: u32, p: u32)
    requires Sealed(k, start, brk, size, magic, head, next, link, first, prev, newest, stacks, pages, chain, forward, free)
    requires h in size && size[h] < BIG_BIN && HeaderOf(p) == h && Live(size, stacks, p)
    ensures h != NULL && h in head && h in stacks && (head[h] == NULL <==> stacks[h] == [])
    ensures h < p < h + PAGE_SIZE
  {
    Open(k, start, brk, size, magic, head, next, link, first, prev, newest, stacks, pages, chain, forward, free);
    var s := stacks[h];
    assert Threads(head[h], link, s);
    if s != [] {
      assert SmallPage(size, stacks, h);
      assert s[0] in s;
      CellBounds(h, size[h] as nat, s[0]);
    }
    CellBounds(h, size[h] as nat, p);
  }

  /** A big block whose head is NULL is in use: its stack is empty and it is off the skip list. */
  lemma OwnedBlock(k: nat, start: nat, brk: nat, size: map<u32, u32>, magic: map<u32, u32>, head: map<u32, u32>,
                   next: map<u32, u32>, link: map<u32, u32>, first: seq<u32>, prev: map<u32, u32>, newest: u32,
                   stacks: map<u32, seq<u32>>, pages: seq<seq<u32>>, chain: seq<u32>,
                   forward: map<u32, seq<u32>>, free: seq<u32>, h: u32)
    requires Sealed(k, start, brk, size, magic, head, next, link, first, prev, newest, stacks, pages, chain, forward, free)
    requires h in size && size[h] as nat > NUM_BINS && h in head && head[h] == NULL
    ensures h != NULL && h in stacks && stacks[h] == [] && h !in free && SkipList.Node(size, forward, h)
    ensures h as nat + BIG_HEADER < h as nat + size[h] as nat < U32_LIMIT
  {
    Open(k, start, brk, size, magic, head, next, link, first, prev, newest, stacks, pages, chain, forward, free);
    assert BigBlock(size, stacks, h);
    assert Threads(head[h], link, stacks[h]);
  }

  /**
   * A live pointer's bytes lie inside its header's extent below the break, and two different
   * live pointers own bytes that do not overlap.
   */
  lemma LiveBounds(k: nat, start: nat, brk: nat, size: map<u32, u32>, magic: map<u32, u32>, head: map<u32, u32>,
                   next: map<u32, u32>, link: map<u32, u32>, first: seq<u32>, prev: map<u32, u32>, newest: u32,
                   stacks: map<u32, seq<u32>>, pages: seq<seq<u32>>, chain: seq<u32>,
                   forward: map<u32, seq<u32>>, free: seq<u32>, p: u32, q: u32)
    requires Sealed(k, start, brk, size, magic, head, next, link, first, prev, newest, stacks, pages, chain, forward, free)
    requires Live(size, stacks, p) && Live(size, stacks, q)
    ensures HeaderOf(p) in size && HeaderOf(q) in size
    ensures p as nat + Room(size, p) <= brk && q as nat + Room(size, q) <= brk
    ensures p != q ==> p as nat + Room(size, p) <= q as nat || q as nat + Room(size, q) <= p as nat
  {
    Open(k, start, brk, size, magic, head, next, link, first, prev, newest, stacks, pages, chain, forward, free);
    LiveInHeap(size, magic, head, next, stacks, start, brk, p);
    LiveInHeap(size, magic, head, next, stacks, start, brk, q);
    if p != q {
      LiveApart(size, magic, head, next, stacks, start, brk, p, q);
    }
  }

  /**
   * free of cell p of small page h: the cell is pushed, and a page whose stack was empty goes
   * back in front of its bin's list.
   */
  lemma GiveCellStep(k: nat, start: nat, brk: nat, size: map<u32, u32>, magic: map<u32, u32>, head: map<u32, u32>,
                     next: map<u32, u32>, link: map<u32, u32>, first: seq<u32>, prev: map<u32, u32>, newest: u32,
                     stacks: map<u32, seq<u32>>, pages: seq<seq<u32>>, chain: seq<u32>,
                     forward: map<u32, seq<u32>>, free: seq<u32>, h: u32, p: u32,
                     next': map<u32, u32>, first': seq<u32>, pages': seq<seq<u32>>)
    requires Sealed(k, start, brk, size, magic, head, next, link, first, prev, newest, stacks, pages, chain, forward, free)
    requires |first| == SMALL_BINS && |pages| == SMALL_BINS && h in size && size[h] as nat < SMALL_BINS && h in stacks && h in head
    requires IsCell(h, size[h], p) && p !in stacks[h]
    requires var c := size[h] as nat;
      if stacks[h] == [] then first' == first[c := h] && next' == next[h := first[c]] && pages' == pages[c := [h] + pages[c]]
      else first' == first && next' == next && pages' == pages
    ensures Sealed(k, start, brk, size, magic, head[h := p], next', link[p := head[h]], first', prev, newest,
                   stacks[h := [p] + stacks[h]], pages', chain, forward, free)
    ensures Live(size, stacks, p) && forall q :: Live(size, stacks[h := [p] + stacks[h]], q) <==> Live(size, stacks, q) && q != p
  {
    Open(k, start, brk, size, magic, head, next, link, first, prev, newest, stacks, pages, chain, forward, free);
    assert SmallPage(size, stacks, h);
    CellBounds(h, size[h] as nat, p);
    HeaderOfIn(h, p);
    HomedOf(size, magic, head, next, stacks, start, brk);
    GiveCellHeaders(size, magic, head, next, link, stacks, start, brk, h, p, next');
    GiveCellLists(first, next, size, stacks, pages, prev, newest, chain, forward, free, h, p, next', first', pages');
    Close(k, start, brk, size, magic, head[h := p], next', link[p := head[h]], first', prev, newest, stacks[h := [p] + stacks[h]], pages', chain, forward, free);
    LivePush(size, stacks, h, p);
  }

  /** The headers and stacks once cell p is pushed on small page h. */
  lemma GiveCellHeaders(size: map<u32, u32>, magic: map<u32, u32>, head: map<u32, u32>, next: map<u32, u32>,
                        link: map<u32, u32>, stacks: map<u32, seq<u32>>, start: nat, brk: nat, h: u32, p: u32,
                        next': map<u32, u32>)
    requires Headers(size, magic, head, next, stacks, start, brk) && StacksOk(size, head, link, stacks)
    requires Homed(size, stacks)
    requires h in size && size[h] as nat < SMALL_BINS && h in stacks && h in head && h % PAGE_SIZE == 0
    requires IsCell(h, size[h], p) && p !in stacks[h] && HeaderOf(p) == h
    requires forall k :: k in next ==> k in next'
    ensures Headers(size, magic, head[h := p], next', stacks[h := [p] + stacks[h]], start, brk)
    ensures StacksOk(size, head[h := p], link[p := head[h]], stacks[h := [p] + stacks[h]])
  {
    var s := stacks[h];
    var head' := head[h := p];
    var link' := link[p := head[h]];
    var stacks' := stacks[h := [p] + s];
    assert SmallPage(size, stacks, h);
    HeadersFrame(size, magic, head, next, stacks, start, brk, head', next', stacks', brk, h);
    assert Threads(head[h], link, s) && Distinct(s);
    ThreadsPush(head[h], link, s, p);
    DistinctCons(p, s);
    StacksFrame(size, head, link, stacks, size, head', link', stacks', h);
  }

  /** The page lists, the skip list's blocks and the chain once cell p is pushed on small page h. */
  lemma GiveCellLists(first: seq<u32>, next: map<u32, u32>, size: map<u32, u32>, stacks: map<u32, seq<u32>>,
                      pages: seq<seq<u32>>, prev: map<u32, u32>, newest: u32, chain: seq<u32>,
                      forward: map<u32, seq<u32>>, free: seq<u32>, h: u32, p: u32,
                      next': map<u32, u32>, first': seq<u32>, pages': seq<seq<u32>>)
    requires PagesOk(first, next, size, stacks, pages) && BigFree(size, stacks, forward, free)
    requires ChainOk(size, prev, next, newest, chain)
    requires forall k :: k in size ==> k in stacks
    requires h != NULL && h in size && size[h] as nat < SMALL_BINS && h in stacks
    requires var c := size[h] as nat;
      if stacks[h] == [] then first' == first[c := h] && next' == next[h := first[c]] && pages' == pages[c := [h] + pages[c]]
      else first' == first && next' == next && pages' == pages
    ensures PagesOk(first', next', size, stacks[h := [p] + stacks[h]], pages')
    ensures BigFree(size, stacks[h := [p] + stacks[h]], forward, free)
    ensures ChainOk(size, prev, next', newest, chain)
  {
    var c := size[h] as nat;
    var stacks' := stacks[h := [p] + stacks[h]];
    if stacks[h] == [] {
      PagesInsert(first, next, size, stacks, pages, c, h, stacks');
      assert size[h := c as u32] == size;
    } else {
      PagesFrame(first, next, size, stacks, pages, next', size, stacks');
    }
    BigFreeFrame(size, stacks, forward, free, size, stacks', forward);
    ChainFrame(size, prev, next, newest, chain, size, next');
  }

  /** free of big block h: the cell past its header is pushed and the block joins the skip list. */
  lemma GiveBlockStep(k: nat, start: nat, brk: nat, size: map<u32, u32>, magic: map<u32, u32>, head: map<u32, u32>,
                      next: map<u32, u32>, link: map<u32, u32>, first: seq<u32>, prev: map<u32, u32>, newest: u32,
                      stacks: map<u32, seq<u32>>, pages: seq<seq<u32>>, chain: seq<u32>,
                      forward: map<u32, seq<u32>>, free: seq<u32>, h: u32,
                      forward': map<u32, seq<u32>>, free': seq<u32>)
    requires Sealed(k, start, brk, size, magic, head, next, link, first, prev, newest, stacks, pages, chain, forward, free)
    requires h in size && size[h] as nat >= BIG_BIN && h in stacks && stacks[h] == [] && h in head
    requires SkipList.Kept(forward, forward') && forall x :: x in free' <==> x in free || x == h
    ensures h + BIG_HEADER < U32_LIMIT && head[h] == NULL && Live(size, stacks, h + BIG_HEADER)
    ensures forall q :: Live(size, stacks[h := [h + BIG_HEADER]], q) <==> Live(size, stacks, q) && q as nat != h + BIG_HEADER
    ensures Sealed(k, start, brk, size, magic, head[h := h + BIG_HEADER], next, link[h + BIG_HEADER := head[h]], first,
                   prev, newest, stacks[h := [h + BIG_HEADER]], pages, chain, forward', free')
  {
    Open(k, start, brk, size, magic, head, next, link, first, prev, newest, stacks, pages, chain, forward, free);
    var p := h + BIG_HEADER;
    var head' := head[h := p];
    var link' := link[p := head[h]];
    var stacks' := stacks[h := [p]];
    assert BigBlock(size, stacks, h);
    HeaderOfIn(h, p);
    HeadersFrame(size, magic, head, next, stacks, start, brk, head', next, stacks', brk, h);
    HomedOf(size, magic, head, next, stacks, start, brk);
    assert Threads(head[h], link, []);
    ThreadsPush(head[h], link, [], p);
    StacksFrame(size, head, link, stacks, size, head', link', stacks', h);
    PagesFrame(first, next, size, stacks, pages, next, size, stacks');
    BigFreeSwap(size, stacks, forward, free, h, stacks', forward', free');
    Close(k, start, brk, size, magic, head[h := h + BIG_HEADER], next, link[h + BIG_HEADER := head[h]], first, prev, newest, stacks[h := [h + BIG_HEADER]], pages, chain, forward', free');
    LivePush(size, stacks, h, p);
  }
}
