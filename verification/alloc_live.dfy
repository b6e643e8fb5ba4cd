// Which pointers klmalloc (src/alloc.c) has handed out and not taken back, how many bytes each
// one owns, and how the steps of malloc and free change that set.
module AllocLive {
  import opened Types
  import opened AllocBins
  import opened AllocLayout

  /**
   * ptr is live: a cell of a small page that is not on its page's free stack, or the first
   * byte past a big block's header while the block is off the skip list.
   */
  ghost predicate Live(size: map<u32, u32>, stacks: map<u32, seq<u32>>, ptr: u32) {
    var h := HeaderOf(ptr);
    && h in size && h in stacks
    && if size[h] < BIG_BIN then IsCell(h, size[h], ptr) && ptr !in stacks[h]
       else ptr as nat == h + BIG_HEADER && stacks[h] == []
  }

  /** The bytes a pointer into the page or block of header HeaderOf(ptr) owns: a cell, or the block's data. */
  function Room(size: map<u32, u32>, ptr: u32): nat
    requires HeaderOf(ptr) in size
  {
    var h := HeaderOf(ptr);
    if size[h] < BIG_BIN then CellSize(size[h] as nat) else size[h] as nat
  }

  /** Every cell of a small page of bin c at h is one of the cells the page is formatted with. */
  lemma CellsComplete(h: u32, c: nat, x: nat)
    requires c < BIG_BIN && h + PAGE_SIZE <= U32_LIMIT && IsCell(h, c, x)
    ensures x in Cells(h, c)
  {
    var k :| 0 <= k <= LastCell(c) && x == CellAt(h, c, k);
    assert Cells(h, c)[k] == x;
  }

  /** Popping the top x of header h's stack makes x live and nothing else. */
  lemma LivePop(size: map<u32, u32>, stacks: map<u32, seq<u32>>, h: u32, x: u32)
    requires h in size && h in stacks && stacks[h] != [] && x == stacks[h][0] && Distinct(stacks[h])
    requires HeaderOf(x) == h
    requires size[h] < BIG_BIN ==> IsCell(h, size[h], x)
    requires size[h] >= BIG_BIN ==> x as nat == h + BIG_HEADER && stacks[h] == [x]
    ensures !Live(size, stacks, x)
    ensures forall q :: Live(size, stacks[h := stacks[h][1..]], q) <==> Live(size, stacks, q) || q == x
  {
    var s := stacks[h];
    var stacks' := stacks[h := s[1..]];
    forall q: u32
      ensures Live(size, stacks', q) <==> Live(size, stacks, q) || q == x
    {
      if HeaderOf(q) == h && size[h] < BIG_BIN {
        if q in s[1..] {
          var j :| 0 <= j < |s[1..]| && s[1..][j] == q;
          assert s[j + 1] == q;
        }
        if q in s && q != x {
          var j :| 0 <= j < |s| && s[j] == q;
          assert s[1..][j - 1] == q;
        }
      }
    }
  }

  /** Pushing the live x on header h's stack takes x back and nothing else. */
  lemma LivePush(size: map<u32, u32>, stacks: map<u32, seq<u32>>, h: u32, x: u32)
    requires h in size && h in stacks && HeaderOf(x) == h && x !in stacks[h]
    requires size[h] < BIG_BIN ==> IsCell(h, size[h], x)
    requires size[h] >= BIG_BIN ==> x as nat == h + BIG_HEADER && stacks[h] == []
    ensures Live(size, stacks, x)
    ensures forall q :: Live(size, stacks[h := [x] + stacks[h]], q) <==> Live(size, stacks, q) && q != x
  {
    var stacks' := stacks[h := [x] + stacks[h]];
    forall q: u32
      ensures Live(size, stacks', q) <==> Live(size, stacks, q) && q != x
    {
      var hq := HeaderOf(q);
      if hq != h {
        assert hq in stacks' <==> hq in stacks;
        assert hq in stacks ==> stacks'[hq] == stacks[hq];
      } else {
        assert q in stacks'[h] <==> q == x || q in stacks[h];
      }
    }
  }

  /**
   * A fresh header h: a small page comes with every cell free, so nothing becomes live; a big
   * block comes off the skip list, so its data pointer does.
   */
  lemma LiveAdd(size: map<u32, u32>, stacks: map<u32, seq<u32>>, h: u32, v: u32, s: seq<u32>)
    requires h !in size && h % PAGE_SIZE == 0 && h + PAGE_SIZE <= U32_LIMIT
    requires v < BIG_BIN ==> s == Cells(h, v as nat)
    requires v >= BIG_BIN ==> s == []
    ensures forall q :: Live(size[h := v], stacks[h := s], q) <==>
      Live(size, stacks, q) || (v >= BIG_BIN && q as nat == h + BIG_HEADER)
  {
    forall q: u32
      ensures Live(size[h := v], stacks[h := s], q) <==> Live(size, stacks, q) || (v >= BIG_BIN && q as nat == h + BIG_HEADER)
    {
      if HeaderOf(q) == h && v < BIG_BIN && IsCell(h, v, q) {
        CellsComplete(h, v as nat, q);
      }
      if v >= BIG_BIN && q as nat == h + BIG_HEADER {
        HeaderOfIn(h, q);
      }
    }
  }

  /** A live pointer and the bytes it owns lie inside its header's extent, below the break. */
  lemma LiveInHeap(size: map<u32, u32>, magic: map<u32, u32>, head: map<u32, u32>, next: map<u32, u32>,
                   stacks: map<u32, seq<u32>>, start: nat, brk: nat, p: u32)
    requires Headers(size, magic, head, next, stacks, start, brk) && Live(size, stacks, p)
    ensures var h := HeaderOf(p);
      && h < p && p + Room(size, p) <= h + Extent(size, h) <= brk && start <= h && 0 < Room(size, p)
  {
    var h := HeaderOf(p);
    if size[h] < BIG_BIN {
      CellBounds(h, size[h] as nat, p);
    }
  }

  /** Two different live pointers own bytes that do not overlap. */
  lemma LiveApart(size: map<u32, u32>, magic: map<u32, u32>, head: map<u32, u32>, next: map<u32, u32>,
                  stacks: map<u32, seq<u32>>, start: nat, brk: nat, p: u32, q: u32)
    requires Headers(size, magic, head, next, stacks, start, brk) && Disjoint(size)
    requires Live(size, stacks, p) && Live(size, stacks, q) && p != q
    ensures p + Room(size, p) <= q || q + Room(size, q) <= p
  {
    var hp, hq := HeaderOf(p), HeaderOf(q);
    LiveInHeap(size, magic, head, next, stacks, start, brk, p);
    LiveInHeap(size, magic, head, next, stacks, start, brk, q);
    if hp < hq {
      assert hp + Extent(size, hp) <= hq;
    } else if hq < hp {
      assert hq + Extent(size, hq) <= hp;
    } else {
      CellsOfOnePage(hp, size[hp] as nat, p, q);
    }
  }

  /** Two different cells of one small page are at least a cell apart. */
  lemma CellsOfOnePage(h: u32, c: nat, p: nat, q: nat)
    requires c < BIG_BIN && IsCell(h, c, p) && IsCell(h, c, q) && p != q
    ensures p + CellSize(c) <= q || q + CellSize(c) <= p
  {
    var i :| 0 <= i <= LastCell(c) && p == CellAt(h, c, i);
    var j :| 0 <= j <= LastCell(c) && q == CellAt(h, c, j);
    if i < j {
      CellAtMono(h, c, i, j);
    } else {
      CellAtMono(h, c, j, i);
    }
  }
}
