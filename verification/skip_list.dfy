// The size-ordered skip list of free big blocks in src/alloc.c (klmalloc_big_bins): a sentinel
// whose forward pointers head the levels 0..SKIP_MAX_LEVEL, the current list level, and the
// forward pointers stored in every big block's header. Best-fit search, insert and delete.
module SkipList {
  import opened Types
  import SkipRand

  const MAX_LEVEL: nat := 6
  /** Forward pointers per header: SKIP_MAX_LEVEL + 1. */
  const LEVELS: nat := 7
  const BIG_HEADER: nat := 48
  /** The address of the sentinel klmalloc_big_bins.head; not page aligned, so never a block. */
  const SENTINEL: u32 := 1

  /** Forward pointers of a header that lies in freshly zeroed memory. */
  function Nulls(): (r: seq<u32>)
    ensures |r| == LEVELS && forall i :: 0 <= i < LEVELS ==> r[i] == NULL
  {
    [NULL, NULL, NULL, NULL, NULL, NULL, NULL]
  }

  /** The forward pointers fs with the i-th one set to x. */
  function Bend(fs: seq<u32>, i: nat, x: u32): (r: seq<u32>)
    requires i < |fs|
    ensures |r| == |fs| && r[i] == x && forall j :: 0 <= j < |fs| && j != i ==> r[j] == fs[j]
  {
    fs[i := x]
  }

  /** The node at position k of a level, or NULL past its end. */
  function At(L: seq<u32>, k: nat): u32 {
    if k < |L| then L[k] else NULL
  }

  /** The node before position k: the sentinel for k == 0. */
  function Pred(L: seq<u32>, k: nat): u32
    requires k <= |L|
  {
    if k == 0 then SENTINEL else L[k - 1]
  }

  function InsertAt(L: seq<u32>, k: nat, v: u32): (r: seq<u32>)
    requires k <= |L|
    ensures |r| == |L| + 1 && r[k] == v
    ensures forall j :: 0 <= j < k ==> r[j] == L[j]
    ensures forall j :: k < j < |r| ==> r[j] == L[j - 1]
  {
    L[..k] + [v] + L[k..]
  }

  /** L with every occurrence of v taken out, the rest in order. */
  function Without(L: seq<u32>, v: u32): seq<u32> {
    if L == [] then []
    else if L[0] == v then Without(L[1..], v)
    else [L[0]] + Without(L[1..], v)
  }

  /**
   * The position of the first node of L whose size is at least s; on a sorted level every
   * node before it is smaller than s.
   */
  function Below(size: map<u32, u32>, L: seq<u32>, s: u32): (k: nat)
    requires forall j :: 0 <= j < |L| ==> L[j] in size
    ensures k <= |L|
    ensures forall j :: 0 <= j < k ==> size[L[j]] < s
    ensures k < |L| ==> size[L[k]] >= s
  {
    if L == [] || size[L[0]] >= s then 0 else 1 + Below(size, L[1..], s)
  }

  /**
   * The order of every level: by size, and among equal sizes by a ghost rank that records
   * which node was inserted later (a later insert goes in front).
   */
  ghost predicate Lt(size: map<u32, u32>, rank: map<u32, int>, a: u32, b: u32) {
    && a in size && b in size && a in rank && b in rank
    && (size[a] < size[b] || (size[a] == size[b] && rank[a] < rank[b]))
  }

  ghost predicate Sorted(size: map<u32, u32>, rank: map<u32, int>, L: seq<u32>) {
    forall j, k :: 0 <= j < k < |L| ==> Lt(size, rank, L[j], L[k])
  }

  /** Level i of the forward pointers threads the nodes of L from the sentinel, ending in NULL. */
  ghost predicate Chain(forward: map<u32, seq<u32>>, i: nat, L: seq<u32>) {
    && SENTINEL in forward && i < |forward[SENTINEL]| && forward[SENTINEL][i] == At(L, 0)
    && forall j {:trigger forward[L[j]]} {:trigger L[j] in forward} :: 0 <= j < |L| ==>
         L[j] in forward && i < |forward[L[j]]| && forward[L[j]][i] == At(L, j + 1)
  }

  /** A header the list may hold: page aligned, with the size shape insert ASSERTs. */
  ghost predicate Node(size: map<u32, u32>, forward: map<u32, seq<u32>>, h: u32) {
    && h != NULL && h % PAGE_SIZE == 0
    && h in size && size[h] != 0 && (size[h] + BIG_HEADER) % PAGE_SIZE == 0
    && h in forward && |forward[h]| == LEVELS
  }

  /** A node on the list: its rank lies above low. */
  ghost predicate Good(size: map<u32, u32>, forward: map<u32, seq<u32>>, rank: map<u32, int>, low: int, h: u32) {
    Node(size, forward, h) && h in rank && rank[h] > low
  }

  ghost predicate AllGood(size: map<u32, u32>, forward: map<u32, seq<u32>>, rank: map<u32, int>, low: int, L: seq<u32>) {
    forall j :: 0 <= j < |L| ==> Good(size, forward, rank, low, L[j])
  }

  ghost predicate Within(A: seq<u32>, B: seq<u32>) {
    forall h :: h in A ==> h in B
  }

  /**
   * The skip-list invariant over plain values: every level threads sorted good nodes, each
   * level holds only nodes of the level below it, and the levels above the list level are empty
   * while the list level itself (when above 0) is not.
   */
  ghost predicate Shape(size: map<u32, u32>, forward: map<u32, seq<u32>>, level: nat,
                        levels: seq<seq<u32>>, rank: map<u32, int>, low: int)
  {
    && |levels| == LEVELS && level <= MAX_LEVEL
    && SENTINEL in forward && |forward[SENTINEL]| == LEVELS
    && (forall i :: 0 <= i < LEVELS ==> AllGood(size, forward, rank, low, levels[i]))
    && (forall i :: 0 <= i < LEVELS ==> Chain(forward, i, levels[i]))
    && (forall i :: 0 <= i < LEVELS ==> Sorted(size, rank, levels[i]))
    && (forall i :: 0 < i < LEVELS ==> Within(levels[i], levels[i - 1]))
    && (forall i :: 0 <= i < LEVELS ==> Within(levels[i], levels[0]))
    && (forall i :: level < i < LEVELS ==> levels[i] == [])
    && (level > 0 ==> levels[level] != [])
  }

  /**
   * Shape behind k unfoldings. A caller that keeps the list among many other facts holds the
   * invariant in this form with a depth it does not know, so the verifier does not expand the
   * invariant's quantifiers in its proofs; Open and Close convert between the two forms.
   */
  ghost predicate Sealed(k: nat, size: map<u32, u32>, forward: map<u32, seq<u32>>, level: nat,
                         levels: seq<seq<u32>>, rank: map<u32, int>, low: int)
    decreases k
  {
    if k == 0 then Shape(size, forward, level, levels, rank, low)
    else Sealed(k - 1, size, forward, level, levels, rank, low)
  }

  lemma {:induction false} Open(k: nat, size: map<u32, u32>, forward: map<u32, seq<u32>>, level: nat,
                                levels: seq<seq<u32>>, rank: map<u32, int>, low: int)
    requires Sealed(k, size, forward, level, levels, rank, low)
    ensures Shape(size, forward, level, levels, rank, low)
    decreases k
  {
    if k > 0 {
      Open(k - 1, size, forward, level, levels, rank, low);
    }
  }

  lemma {:induction false} Close(k: nat, size: map<u32, u32>, forward: map<u32, seq<u32>>, level: nat,
                                 levels: seq<seq<u32>>, rank: map<u32, int>, low: int)
    requires Shape(size, forward, level, levels, rank, low)
    ensures Sealed(k, size, forward, level, levels, rank, low)
    decreases k
  {
    if k > 0 {
      Close(k - 1, size, forward, level, levels, rank, low);
    }
  }

  // ---- Lemmas about levels ----

  /** A node on a level whose nodes are all good is good. */
  lemma GoodOf(size: map<u32, u32>, forward: map<u32, seq<u32>>, rank: map<u32, int>, low: int, L: seq<u32>, h: u32)
    requires AllGood(size, forward, rank, low, L) && h in L
    ensures Good(size, forward, rank, low, h)
  {
    var q :| 0 <= q < |L| && L[q] == h;
  }

  /** On a sorted level, every node from position Below on is at least s. */
  lemma BelowSorted(size: map<u32, u32>, rank: map<u32, int>, L: seq<u32>, s: u32)
    requires forall j :: 0 <= j < |L| ==> L[j] in size
    requires Sorted(size, rank, L)
    ensures forall j :: Below(size, L, s) <= j < |L| ==> size[L[j]] >= s
  {
    var k := Below(size, L, s);
    forall j | k < j < |L|
      ensures size[L[j]] >= s
    {
      assert Lt(size, rank, L[k], L[j]);
    }
  }

  /** On a sorted level, an earlier node is below a later one. */
  lemma SortedOrder(size: map<u32, u32>, rank: map<u32, int>, L: seq<u32>, a: nat, b: nat)
    requires Sorted(size, rank, L) && b < |L|
    ensures a < b ==> Lt(size, rank, L[a], L[b])
  {
  }

  lemma LtAsym(size: map<u32, u32>, rank: map<u32, int>, a: u32, b: u32)
    ensures !(Lt(size, rank, a, b) && Lt(size, rank, b, a))
  {
  }

  /** A strictly sorted level holds no node twice. */
  lemma SortedDistinct(size: map<u32, u32>, rank: map<u32, int>, L: seq<u32>)
    requires Sorted(size, rank, L)
    ensures forall a, b :: 0 <= a < b < |L| ==> L[a] != L[b]
  {
    forall a, b | 0 <= a < b < |L|
      ensures L[a] != L[b]
    {
      assert Lt(size, rank, L[a], L[b]);
    }
  }

  /** The pointer leaving the predecessor of position k on level i is the node at k. */
  lemma ChainAt(forward: map<u32, seq<u32>>, i: nat, L: seq<u32>, k: nat)
    requires Chain(forward, i, L) && k <= |L|
    ensures Pred(L, k) in forward && i < |forward[Pred(L, k)]| && forward[Pred(L, k)][i] == At(L, k)
  {
    if k > 0 {
      assert L[k - 1] in forward && forward[L[k - 1]][i] == At(L, k);
    }
  }

  /** Bending the i-th pointer of one header leaves every other level's chain alone. */
  lemma BendFrame(f: map<u32, seq<u32>>, p: u32, i: nat, x: u32, j: nat, L: seq<u32>)
    requires Chain(f, j, L) && p in f && i < |f[p]| && i != j
    ensures Chain(f[p := Bend(f[p], i, x)], j, L)
  {
  }

  /** Giving a header that is not on level j new pointers leaves level j's chain alone. */
  lemma AddFrame(f: map<u32, seq<u32>>, h: u32, fs: seq<u32>, j: nat, L: seq<u32>)
    requires Chain(f, j, L) && h != SENTINEL && h !in L
    ensures Chain(f[h := fs], j, L)
  {
    forall q | 0 <= q < |L|
      ensures L[q] != h
    {
      assert L[q] in L;
    }
  }

  /** Splicing v in at position k of level i: the level then threads L with v inserted. */
  lemma SpliceChain(f: map<u32, seq<u32>>, i: nat, L: seq<u32>, k: nat, v: u32)
    requires Chain(f, i, L) && k <= |L| && v != SENTINEL && v !in L && SENTINEL !in L
    requires forall a, b :: 0 <= a < b < |L| ==> L[a] != L[b]
    requires v in f && i < |f[v]|
    ensures var p := Pred(L, k);
      var f1 := f[v := Bend(f[v], i, At(L, k))];
      var f2 := f1[p := Bend(f1[p], i, v)];
      Chain(f2, i, InsertAt(L, k, v))
  {
    var p := Pred(L, k);
    ChainAt(f, i, L, k);
    var f1 := f[v := Bend(f[v], i, At(L, k))];
    var f2 := f1[p := Bend(f1[p], i, v)];
    var M := InsertAt(L, k, v);
    assert p != v;
    forall j | 0 <= j < |M|
      ensures M[j] in f2 && i < |f2[M[j]]| && f2[M[j]][i] == At(M, j + 1)
    {
      if j < k {
        assert M[j] == L[j];
        if j == k - 1 {
          assert M[j] == p;
        } else {
          assert L[j] != p && L[j] != v;
        }
      } else if j > k {
        assert M[j] == L[j - 1] && L[j - 1] != v;
        if k > 0 {
          assert L[j - 1] != L[k - 1] by {
            assert L[j - 1] in L;
          }
        }
      }
    }
  }

  /** Unlinking the node at position k of level i: the level then threads L without it. */
  lemma UnlinkChain(f: map<u32, seq<u32>>, i: nat, L: seq<u32>, k: nat)
    requires Chain(f, i, L) && k < |L| && SENTINEL !in L
    requires forall a, b :: 0 <= a < b < |L| ==> L[a] != L[b]
    ensures var p := Pred(L, k);
      Chain(f[p := Bend(f[p], i, f[L[k]][i])], i, L[..k] + L[k + 1..])
  {
    var p := Pred(L, k);
    ChainAt(f, i, L, k);
    var f2 := f[p := Bend(f[p], i, f[L[k]][i])];
    var M := L[..k] + L[k + 1..];
    forall j | 0 <= j < |M|
      ensures M[j] in f2 && i < |f2[M[j]]| && f2[M[j]][i] == At(M, j + 1)
    {
      if j < k {
        assert M[j] == L[j];
        if j < k - 1 {
          assert L[j] != L[k - 1];
        }
      } else {
        assert M[j] == L[j + 1];
        if k > 0 {
          assert L[j + 1] != L[k - 1];
        }
      }
    }
  }

  /** The nodes of InsertAt(L, k, v) are v and the nodes of L. */
  lemma InsertAtMembers(L: seq<u32>, k: nat, v: u32, h: u32)
    requires k <= |L|
    ensures h in InsertAt(L, k, v) <==> h == v || h in L
  {
    var M := InsertAt(L, k, v);
    if h in L {
      var q :| 0 <= q < |L| && L[q] == h;
      if q < k {
        assert M[q] == h;
      } else {
        assert M[q + 1] == h;
      }
    }
    if h in M && h != v {
      var q :| 0 <= q < |M| && M[q] == h;
      if q < k {
        assert L[q] == h;
      } else {
        assert L[q - 1] == h;
      }
    }
  }

  /** Taking out the node at position k, where v is, removes every occurrence of v. */
  lemma {:induction false} WithoutAt(L: seq<u32>, k: nat, v: u32)
    requires k < |L| && L[k] == v
    requires forall a, b :: 0 <= a < b < |L| ==> L[a] != L[b]
    ensures Without(L, v) == L[..k] + L[k + 1..]
    decreases |L|
  {
    if k == 0 {
      WithoutAbsent(L[1..], v);
      assert L[1..] == L[..0] + L[1..];
    } else {
      assert L[0] != v;
      WithoutAt(L[1..], k - 1, v);
      assert L[..k] + L[k + 1..] == [L[0]] + (L[1..][..k - 1] + L[1..][k..]);
    }
  }

  lemma {:induction false} WithoutAbsent(L: seq<u32>, v: u32)
    requires v !in L
    ensures Without(L, v) == L
    decreases |L|
  {
    if L != [] {
      WithoutAbsent(L[1..], v);
      assert L == [L[0]] + L[1..];
    }
  }

  /** x is on Without(L, v) exactly when it is on L and is not v. */
  lemma {:induction false} WithoutMembers(L: seq<u32>, v: u32, x: u32)
    ensures x in Without(L, v) <==> x in L && x != v
    decreases |L|
  {
    if L != [] {
      WithoutMembers(L[1..], v, x);
      assert L == [L[0]] + L[1..];
    }
  }

  lemma {:induction false} SortedWithout(size: map<u32, u32>, rank: map<u32, int>, L: seq<u32>, v: u32)
    requires Sorted(size, rank, L)
    ensures Sorted(size, rank, Without(L, v))
    decreases |L|
  {
    if L != [] {
      var T := L[1..];
      assert Sorted(size, rank, T) by {
        forall j, k | 0 <= j < k < |T|
          ensures Lt(size, rank, T[j], T[k])
        {
          assert T[j] == L[j + 1] && T[k] == L[k + 1];
        }
      }
      SortedWithout(size, rank, T, v);
      if L[0] != v {
        var W := Without(T, v);
        var M := [L[0]] + W;
        forall j, k | 0 <= j < k < |M|
          ensures Lt(size, rank, M[j], M[k])
        {
          if j == 0 {
            assert M[k] == W[k - 1] && W[k - 1] in W;
            WithoutMembers(T, v, W[k - 1]);
            var q :| 0 <= q < |T| && T[q] == W[k - 1];
            assert L[q + 1] == W[k - 1];
          } else {
            assert M[j] == W[j - 1] && M[k] == W[k - 1];
          }
        }
      }
    }
  }

  /** Lt is unchanged for nodes other than v when v's rank changes. */
  lemma SortedRankFrame(size: map<u32, u32>, rank: map<u32, int>, L: seq<u32>, v: u32, r: int)
    requires Sorted(size, rank, L) && v !in L
    ensures Sorted(size, rank[v := r], L)
  {
    forall j, k | 0 <= j < k < |L|
      ensures Lt(size, rank[v := r], L[j], L[k])
    {
      assert L[j] in L && L[k] in L;
      assert Lt(size, rank, L[j], L[k]);
    }
  }

  /** Inserting v at the first position of its size, with a rank below every other, keeps the order. */
  lemma SortedInsert(size: map<u32, u32>, rank: map<u32, int>, L: seq<u32>, v: u32, low: int)
    requires forall j :: 0 <= j < |L| ==> L[j] in size && L[j] in rank && rank[L[j]] > low
    requires Sorted(size, rank, L) && v in size && v !in L
    ensures Sorted(size, rank[v := low], InsertAt(L, Below(size, L, size[v]), v))
  {
    var k := Below(size, L, size[v]);
    var M := InsertAt(L, k, v);
    var rk := rank[v := low];
    BelowSorted(size, rank, L, size[v]);
    forall j, m | 0 <= j < m < |M|
      ensures Lt(size, rk, M[j], M[m])
    {
      if m < k {
        assert M[j] == L[j] && M[m] == L[m] && L[j] in L && L[m] in L;
        assert Lt(size, rank, L[j], L[m]);
      } else if m == k {
        assert M[j] == L[j];
      } else if j == k {
        assert M[m] == L[m - 1] && L[m - 1] in L;
      } else if j < k {
        assert M[j] == L[j] && M[m] == L[m - 1] && L[j] in L && L[m - 1] in L;
        assert Lt(size, rank, L[j], L[m - 1]);
      } else {
        assert M[j] == L[j - 1] && M[m] == L[m - 1] && L[j - 1] in L && L[m - 1] in L;
        assert Lt(size, rank, L[j - 1], L[m - 1]);
      }
    }
  }

  // ---- Lemmas about the whole list ----

  /** value is the node findbest returns for its own size: the first of its size on level 0. */
  ghost predicate IsFirst(size: map<u32, u32>, levels: seq<seq<u32>>, value: u32)
    requires |levels| > 0 && forall j :: 0 <= j < |levels[0]| ==> levels[0][j] in size
  {
    value in size && At(levels[0], Below(size, levels[0], size[value])) == value
  }

  /**
   * The node at the first position of size at least s on level 0 is a best fit: NULL exactly
   * when every node is smaller than s, and otherwise a page-aligned big header no larger than
   * any other node of at least s bytes.
   */
  lemma BestFit(size: map<u32, u32>, forward: map<u32, seq<u32>>, rank: map<u32, int>, low: int, Z: seq<u32>, s: u32)
    requires AllGood(size, forward, rank, low, Z) && Sorted(size, rank, Z)
    ensures At(Z, Below(size, Z, s)) == NULL <==> forall h :: h in Z ==> size[h] < s
    ensures var r := At(Z, Below(size, Z, s));
      r != NULL ==> r in Z && size[r] >= s && r % PAGE_SIZE == 0 && (size[r] + BIG_HEADER) % PAGE_SIZE == 0
    ensures var r := At(Z, Below(size, Z, s));
      r != NULL ==> forall h :: h in Z && size[h] >= s ==> size[r] <= size[h]
  {
    var k := Below(size, Z, s);
    if k < |Z| {
      assert Z[k] in Z && Good(size, forward, rank, low, Z[k]);
      forall h | h in Z && size[h] >= s
        ensures size[Z[k]] <= size[h]
      {
        var q :| 0 <= q < |Z| && Z[q] == h;
        SortedOrder(size, rank, Z, k, q);
      }
    } else {
      forall h | h in Z
        ensures h in size && size[h] < s
      {
        var q :| 0 <= q < |Z| && Z[q] == h;
      }
    }
  }

  /**
   * When v is the first node of its size on level 0, it sits at the first position of its
   * size on every level that holds it: every node before it there is on level 0 before it too.
   */
  lemma FirstOnEveryLevel(size: map<u32, u32>, forward: map<u32, seq<u32>>, level: nat,
                          levels: seq<seq<u32>>, rank: map<u32, int>, low: int, i: nat, v: u32)
    requires Shape(size, forward, level, levels, rank, low) && i < LEVELS && v in size
    ensures IsFirst(size, levels, v) && v in levels[i] ==> At(levels[i], Below(size, levels[i], size[v])) == v
  {
    var L, Z := levels[i], levels[0];
    assert AllGood(size, forward, rank, low, L) && AllGood(size, forward, rank, low, Z);
    FirstOnLevel(size, rank, L, Z, v);
  }

  /** The first node of its size on Z is the first of its size on any sorted level L drawn from Z that holds it. */
  lemma FirstOnLevel(size: map<u32, u32>, rank: map<u32, int>, L: seq<u32>, Z: seq<u32>, v: u32)
    requires Sorted(size, rank, L) && Sorted(size, rank, Z) && Within(L, Z) && v in size
    requires forall j :: 0 <= j < |L| ==> L[j] in size
    requires forall j :: 0 <= j < |Z| ==> Z[j] in size
    ensures At(Z, Below(size, Z, size[v])) == v && v in L ==> At(L, Below(size, L, size[v])) == v
  {
    if At(Z, Below(size, Z, size[v])) == v && v in L {
      var k := Below(size, L, size[v]);
      var p :| 0 <= p < |L| && L[p] == v;
      var x := L[k];
      assert x in L;
      var q :| 0 <= q < |Z| && Z[q] == x;
      var z := Below(size, Z, size[v]);
      SortedOrder(size, rank, L, k, p);
      SortedOrder(size, rank, Z, z, q);
      LtAsym(size, rank, x, v);
    }
  }

  /** A node on level j at or above i is on level i too. */
  lemma {:induction false} OnLowerLevel(size: map<u32, u32>, forward: map<u32, seq<u32>>, level: nat,
                                        levels: seq<seq<u32>>, rank: map<u32, int>, low: int, i: nat, j: nat, h: u32)
    requires Shape(size, forward, level, levels, rank, low) && i <= j < LEVELS
    ensures h in levels[j] ==> h in levels[i]
    decreases j
  {
    if i < j {
      assert Within(levels[j], levels[j - 1]);
      OnLowerLevel(size, forward, level, levels, rank, low, i, j - 1, h);
    }
  }

  /**
   * Where the unlinking loop of delete stops, value is on no level from there up: a first node
   * of its size that is missing from level i is missing from every level above it.
   */
  lemma AbsentAbove(size: map<u32, u32>, forward: map<u32, seq<u32>>, level: nat,
                    levels: seq<seq<u32>>, rank: map<u32, int>, low: int, i: nat, value: u32)
    requires Shape(size, forward, level, levels, rank, low) && i < LEVELS && value in size
    requires At(levels[i], Below(size, levels[i], size[value])) != value
    ensures IsFirst(size, levels, value) ==> forall j :: i <= j < LEVELS ==> value !in levels[j]
  {
    FirstOnEveryLevel(size, forward, level, levels, rank, low, i, value);
    forall j | i <= j < LEVELS
      ensures IsFirst(size, levels, value) ==> value !in levels[j]
    {
      OnLowerLevel(size, forward, level, levels, rank, low, i, j, value);
    }
  }

  /** Every level with value spliced in at the first position of its size, up to height. */
  ghost function Spliced(size: map<u32, u32>, L0: seq<seq<u32>>, value: u32, height: nat): (r: seq<seq<u32>>)
    requires |L0| == LEVELS && value in size
    requires forall i, j :: 0 <= i < LEVELS && 0 <= j < |L0[i]| ==> L0[i][j] in size
    ensures |r| == LEVELS
    ensures forall i :: 0 <= i < LEVELS ==>
      r[i] == if i <= height then InsertAt(L0[i], Below(size, L0[i], size[value]), value) else L0[i]
  {
    seq(LEVELS, i requires 0 <= i < LEVELS =>
      if i <= height then InsertAt(L0[i], Below(size, L0[i], size[value]), value) else L0[i])
  }

  /** Level 0 after a splice holds value and the nodes it held before, all of them sized. */
  lemma SplicedFloor(size: map<u32, u32>, L0: seq<seq<u32>>, value: u32, height: nat)
    requires |L0| == LEVELS && value in size
    requires forall i, j :: 0 <= i < LEVELS && 0 <= j < |L0[i]| ==> L0[i][j] in size
    ensures var M := Spliced(size, L0, value, height)[0];
      && (forall x :: x in M <==> x in L0[0] || x == value)
      && forall j :: 0 <= j < |M| ==> M[j] in size
  {
    var M := Spliced(size, L0, value, height)[0];
    var k := Below(size, L0[0], size[value]);
    forall x
      ensures x in M <==> x in L0[0] || x == value
    {
      InsertAtMembers(L0[0], k, value, x);
    }
    forall j | 0 <= j < |M|
      ensures M[j] in size
    {
      assert M[j] in M;
      if M[j] != value {
        var q :| 0 <= q < |L0[0]| && L0[0][q] == M[j];
      }
    }
  }

  /** Every level with value taken out. */
  ghost function Removed(L0: seq<seq<u32>>, value: u32): (r: seq<seq<u32>>)
    ensures |r| == |L0| && forall i :: 0 <= i < |L0| ==> r[i] == Without(L0[i], value)
  {
    seq(|L0|, i requires 0 <= i < |L0| => Without(L0[i], value))
  }

  /** Bending one pointer of a header keeps the frame. */
  lemma KeptBend(f0: map<u32, seq<u32>>, f: map<u32, seq<u32>>, p: u32, i: nat, x: u32)
    requires Kept(f0, f) && p in f && i < |f[p]|
    ensures Kept(f0, f[p := Bend(f[p], i, x)])
  {
  }

  /** The frame conditions of splicing and unlinking: the same headers keep their pointer counts. */
  ghost predicate Kept(f0: map<u32, seq<u32>>, f: map<u32, seq<u32>>) {
    && (forall x :: x in f ==> x in f0)
    && forall x :: x in f0 ==> x in f && |f[x]| == |f0[x]|
  }

  /** One round of the splicing loop, at level i: the levels below i + 1 now thread the new levels. */
  lemma SpliceLevel(f: map<u32, seq<u32>>, i: nat, Ls: seq<seq<u32>>, Ms: seq<seq<u32>>, k: nat, v: u32)
    requires |Ls| == LEVELS && |Ms| == LEVELS && i < LEVELS && k <= |Ls[i]|
    requires Ms[i] == InsertAt(Ls[i], k, v)
    requires forall j :: 0 <= j < i ==> Chain(f, j, Ms[j])
    requires forall j :: i <= j < LEVELS ==> Chain(f, j, Ls[j])
    requires v != SENTINEL && v !in Ls[i] && SENTINEL !in Ls[i]
    requires forall a, b :: 0 <= a < b < |Ls[i]| ==> Ls[i][a] != Ls[i][b]
    requires v in f && i < |f[v]|
    requires Pred(Ls[i], k) in f && i < |f[Pred(Ls[i], k)]|
    ensures var p := Pred(Ls[i], k);
      var f1 := f[v := Bend(f[v], i, f[p][i])];
      var f2 := f1[p := Bend(f1[p], i, v)];
      && (forall j :: 0 <= j <= i ==> Chain(f2, j, Ms[j]))
      && (forall j :: i < j < LEVELS ==> Chain(f2, j, Ls[j]))
  {
    var p := Pred(Ls[i], k);
    ChainAt(f, i, Ls[i], k);
    SpliceChain(f, i, Ls[i], k, v);
    var f1 := f[v := Bend(f[v], i, f[p][i])];
    var f2 := f1[p := Bend(f1[p], i, v)];
    forall j | 0 <= j < LEVELS && j != i
      ensures (j < i ==> Chain(f2, j, Ms[j])) && (j > i ==> Chain(f2, j, Ls[j]))
    {
      var L := if j < i then Ms[j] else Ls[j];
      BendFrame(f, v, i, f[p][i], j, L);
      BendFrame(f1, p, i, v, j, L);
    }
  }

  /** One round of the unlinking loop, at level i where value sits at position k. */
  lemma UnlinkLevel(f: map<u32, seq<u32>>, i: nat, Ls: seq<seq<u32>>, k: nat, v: u32)
    requires |Ls| == LEVELS && i < LEVELS && k < |Ls[i]| && Ls[i][k] == v
    requires forall j :: 0 <= j < i ==> Chain(f, j, Without(Ls[j], v))
    requires forall j :: i <= j < LEVELS ==> Chain(f, j, Ls[j])
    requires SENTINEL !in Ls[i]
    requires forall a, b :: 0 <= a < b < |Ls[i]| ==> Ls[i][a] != Ls[i][b]
    requires Pred(Ls[i], k) in f && i < |f[Pred(Ls[i], k)]| && v in f && i < |f[v]|
    ensures var p := Pred(Ls[i], k);
      var f2 := f[p := Bend(f[p], i, f[v][i])];
      && (forall j :: 0 <= j <= i ==> Chain(f2, j, Without(Ls[j], v)))
      && (forall j :: i < j < LEVELS ==> Chain(f2, j, Ls[j]))
  {
    var p := Pred(Ls[i], k);
    UnlinkChain(f, i, Ls[i], k);
    WithoutAt(Ls[i], k, v);
    var f2 := f[p := Bend(f[p], i, f[v][i])];
    forall j | 0 <= j < LEVELS && j != i
      ensures (j < i ==> Chain(f2, j, Without(Ls[j], v))) && (j > i ==> Chain(f2, j, Ls[j]))
    {
      var L := if j < i then Without(Ls[j], v) else Ls[j];
      BendFrame(f, p, i, f[v][i], j, L);
    }
  }

  /** The spliced levels hold good nodes only; value gets the lowest rank. */
  /**
   * One round of the unlinking loop at level n, from the list's own shape: the pointer it
   * reads exists; when it does not reach value, value is on no level from n up (if it is the
   * first of its size); when it does, value is the first of its size and bending the pointer
   * past value unlinks level n too.
   */
  lemma UnlinkRound(size: map<u32, u32>, forward: map<u32, seq<u32>>, level: nat, L0: seq<seq<u32>>,
                    rank: map<u32, int>, low: int, update: seq<u32>, value: u32, f: map<u32, seq<u32>>, n: nat)
    requires Shape(size, forward, level, L0, rank, low) && value in size && value in L0[0] && n < LEVELS
    requires |update| == LEVELS && update[n] == Pred(L0[n], Below(size, L0[n], size[value]))
    requires Kept(forward, f) && value in f && f[value] == forward[value]
    requires forall j :: 0 <= j < n ==> Chain(f, j, Without(L0[j], value))
    requires forall j :: n <= j < LEVELS ==> Chain(f, j, L0[j])
    requires n > 0 ==> IsFirst(size, L0, value)
    ensures update[n] in f && n < |f[update[n]]| && n < |f[value]|
    ensures f[update[n]][n] != value ==>
      IsFirst(size, L0, value) ==> forall j :: n <= j < LEVELS ==> value !in L0[j]
    ensures f[update[n]][n] == value ==>
      var f2 := f[update[n] := Bend(f[update[n]], n, f[value][n])];
      && IsFirst(size, L0, value) && update[n] != value
      && Kept(forward, f2) && value in f2 && f2[value] == forward[value]
      && (forall j :: 0 <= j <= n ==> Chain(f2, j, Without(L0[j], value)))
      && (forall j :: n < j < LEVELS ==> Chain(f2, j, L0[j]))
  {
    assert AllGood(size, forward, rank, low, L0[n]);
    var k := Below(size, L0[n], size[value]);
    ChainAt(f, n, L0[n], k);
    GoodOf(size, forward, rank, low, L0[0], value);
    if f[update[n]][n] != value {
      AbsentAbove(size, forward, level, L0, rank, low, n, value);
    } else {
      UnlinkRoundOn(size, forward, level, L0, rank, low, update, value, f, n, k);
    }
  }

  /** The continuing case of UnlinkRound, where the pointer reaches value at position k. */
  lemma UnlinkRoundOn(size: map<u32, u32>, forward: map<u32, seq<u32>>, level: nat, L0: seq<seq<u32>>,
                      rank: map<u32, int>, low: int, update: seq<u32>, value: u32, f: map<u32, seq<u32>>, n: nat, k: nat)
    requires Shape(size, forward, level, L0, rank, low) && value in size && value in L0[0] && n < LEVELS
    requires Good(size, forward, rank, low, value)
    requires k == Below(size, L0[n], size[value]) && |update| == LEVELS && update[n] == Pred(L0[n], k)
    requires update[n] in f && n < |f[update[n]]| && f[update[n]][n] == At(L0[n], k) == value
    requires Kept(forward, f) && value in f && f[value] == forward[value]
    requires forall j :: 0 <= j < n ==> Chain(f, j, Without(L0[j], value))
    requires forall j :: n <= j < LEVELS ==> Chain(f, j, L0[j])
    requires n > 0 ==> IsFirst(size, L0, value)
    ensures var f2 := f[update[n] := Bend(f[update[n]], n, f[value][n])];
      && IsFirst(size, L0, value) && update[n] != value
      && Kept(forward, f2) && value in f2 && f2[value] == forward[value]
      && (forall j :: 0 <= j <= n ==> Chain(f2, j, Without(L0[j], value)))
      && (forall j :: n < j < LEVELS ==> Chain(f2, j, L0[j]))
  {
    assert Sorted(size, rank, L0[n]) && AllGood(size, forward, rank, low, L0[n]);
    SortedDistinct(size, rank, L0[n]);
    UnlinkLevel(f, n, L0, k, value);
    KeptBend(forward, f, update[n], n, f[value][n]);
  }

  lemma SplicedGood(size: map<u32, u32>, f0: map<u32, seq<u32>>, f: map<u32, seq<u32>>, lv0: nat, height: nat,
                    L0: seq<seq<u32>>, rank: map<u32, int>, low: int, value: u32)
    requires Shape(size, f0, lv0, L0, rank, low) && Node(size, f, value) && value !in L0[0] && Kept(f0, f)
    ensures forall i :: 0 <= i < LEVELS ==> AllGood(size, f, rank[value := low], low - 1, Spliced(size, L0, value, height)[i])
  {
    var M := Spliced(size, L0, value, height);
    forall i, j | 0 <= i < LEVELS && 0 <= j < |M[i]|
      ensures Good(size, f, rank[value := low], low - 1, M[i][j])
    {
      var h := M[i][j];
      assert h in M[i];
      if i <= height {
        InsertAtMembers(L0[i], Below(size, L0[i], size[value]), value, h);
      }
      if h != value {
        GoodOf(size, f0, rank, low, L0[i], h);
        assert h in L0[0];
      }
    }
  }

  /** The spliced levels are sorted, and each holds only nodes of the level below. */
  lemma SplicedOrder(size: map<u32, u32>, f0: map<u32, seq<u32>>, lv0: nat, height: nat,
                     L0: seq<seq<u32>>, rank: map<u32, int>, low: int, value: u32)
    requires Shape(size, f0, lv0, L0, rank, low) && value in size && value !in L0[0]
    ensures var M := Spliced(size, L0, value, height);
      && (forall i :: 0 <= i < LEVELS ==> Sorted(size, rank[value := low], M[i]))
      && (forall i :: 0 < i < LEVELS ==> Within(M[i], M[i - 1]))
      && (forall i :: 0 <= i < LEVELS ==> Within(M[i], M[0]))
  {
    var M := Spliced(size, L0, value, height);
    forall i | 0 <= i < LEVELS
      ensures Sorted(size, rank[value := low], M[i])
    {
      assert value !in L0[i];
      if i <= height {
        SortedInsert(size, rank, L0[i], value, low);
      } else {
        SortedRankFrame(size, rank, L0[i], value, low);
      }
    }
    forall i, h {:trigger h in M[i]} | 0 <= i < LEVELS && h in M[i]
      ensures (i > 0 ==> h in M[i - 1]) && h in M[0]
    {
      if i <= height {
        InsertAtMembers(L0[i], Below(size, L0[i], size[value]), value, h);
      }
      if i > 0 {
        assert Within(L0[i], L0[i - 1]);
        if i - 1 <= height {
          InsertAtMembers(L0[i - 1], Below(size, L0[i - 1], size[value]), value, h);
        }
      }
      InsertAtMembers(L0[0], Below(size, L0[0], size[value]), value, h);
    }
  }

  /** After the splicing loop the list has its shape again, at the raised level. */
  lemma SplicedShape(size: map<u32, u32>, f0: map<u32, seq<u32>>, f: map<u32, seq<u32>>, lv0: nat, height: nat,
                     L0: seq<seq<u32>>, rank: map<u32, int>, low: int, value: u32)
    requires Shape(size, f0, lv0, L0, rank, low) && height <= MAX_LEVEL
    requires Node(size, f, value) && value !in L0[0] && Kept(f0, f)
    requires forall j :: 0 <= j < LEVELS ==> Chain(f, j, Spliced(size, L0, value, height)[j])
    ensures Shape(size, f, if height > lv0 then height else lv0, Spliced(size, L0, value, height), rank[value := low], low - 1)
  {
    SplicedGood(size, f0, f, lv0, height, L0, rank, low, value);
    SplicedOrder(size, f0, lv0, height, L0, rank, low, value);
    SplicedTop(size, f0, lv0, height, L0, rank, low, value);
  }

  /** Levels above the raised level stay empty, and the raised level itself is not. */
  lemma SplicedTop(size: map<u32, u32>, f0: map<u32, seq<u32>>, lv0: nat, height: nat,
                   L0: seq<seq<u32>>, rank: map<u32, int>, low: int, value: u32)
    requires Shape(size, f0, lv0, L0, rank, low) && height <= MAX_LEVEL && value in size
    ensures var lv := if height > lv0 then height else lv0;
      && (forall i :: lv < i < LEVELS ==> Spliced(size, L0, value, height)[i] == [])
      && (lv > 0 ==> Spliced(size, L0, value, height)[lv] != [])
  {
    if height >= lv0 {
      InsertAtMembers(L0[height], Below(size, L0[height], size[value]), value, value);
    }
  }

  /**
   * The levels the unlinking loop leaves: value taken out below the level i where it stopped
   * and the rest as it was. When value is the first of its size that is value taken out of
   * every level; otherwise the loop stopped at once and nothing changed.
   */
  lemma RemovedAll(size: map<u32, u32>, f0: map<u32, seq<u32>>, f: map<u32, seq<u32>>, lv0: nat, L0: seq<seq<u32>>,
                   rank: map<u32, int>, low: int, value: u32, i: nat, M: seq<seq<u32>>)
    requires Shape(size, f0, lv0, L0, rank, low) && value in size && i <= LEVELS
    requires |M| == LEVELS && forall j :: 0 <= j < LEVELS ==> M[j] == if j < i then Without(L0[j], value) else L0[j]
    requires IsFirst(size, L0, value) ==> forall j :: i <= j < LEVELS ==> value !in L0[j]
    requires !IsFirst(size, L0, value) ==> i == 0
    requires forall j :: 0 <= j < i ==> Chain(f, j, Without(L0[j], value))
    requires forall j :: i <= j < LEVELS ==> Chain(f, j, L0[j])
    ensures IsFirst(size, L0, value) ==> M == Removed(L0, value)
    ensures !IsFirst(size, L0, value) ==> M == L0
    ensures forall j, q :: 0 <= j < LEVELS && 0 <= q < |M[j]| ==> M[j][q] != NULL
    ensures forall j :: 0 <= j < LEVELS ==> Chain(f, j, M[j])
  {
    forall j | 0 <= j < LEVELS
      ensures Chain(f, j, M[j])
    {
      if j < i {
        assert M[j] == Without(L0[j], value);
      } else {
        assert M[j] == L0[j];
      }
    }
    forall j, q | 0 <= j < LEVELS && 0 <= q < |M[j]|
      ensures M[j][q] != NULL
    {
      var h := M[j][q];
      assert h in M[j];
      WithoutMembers(L0[j], value, h);
      GoodOf(size, f0, rank, low, L0[j], h);
    }
    forall j | i <= j < LEVELS
      ensures IsFirst(size, L0, value) ==> M[j] == Without(L0[j], value)
    {
      if value !in L0[j] {
        WithoutAbsent(L0[j], value);
      }
    }
  }

  /** The levels after unlinking value: it leaves every level when it is the first of its size. */
  ghost function Unlinking(size: map<u32, u32>, L0: seq<seq<u32>>, value: u32): seq<seq<u32>>
    requires |L0| > 0 && forall j :: 0 <= j < |L0[0]| ==> L0[0][j] in size
  {
    if IsFirst(size, L0, value) then Removed(L0, value) else L0
  }

  /** After the unlinking and the lowering loops the list has its shape again. */
  lemma UnlinkedShape(size: map<u32, u32>, f0: map<u32, seq<u32>>, f: map<u32, seq<u32>>, lv0: nat, lv: nat,
                      L0: seq<seq<u32>>, M: seq<seq<u32>>, rank: map<u32, int>, low: int, value: u32)
    requires Shape(size, f0, lv0, L0, rank, low) && Kept(f0, f)
    requires M == Removed(L0, value) || M == L0
    requires forall j :: 0 <= j < LEVELS ==> Chain(f, j, M[j])
    requires lv <= lv0 && (forall j :: lv < j < LEVELS ==> M[j] == []) && (lv > 0 ==> M[lv] != [])
    ensures Shape(size, f, lv, M, rank, low)
  {
    UnlinkedGood(size, f0, f, lv0, L0, M, rank, low, value);
    UnlinkedSorted(size, f0, lv0, L0, M, rank, low, value);
    UnlinkedWithin(size, f0, lv0, L0, M, rank, low, value);
  }

  /** The nodes left on the levels are still good under the new pointers. */
  lemma UnlinkedGood(size: map<u32, u32>, f0: map<u32, seq<u32>>, f: map<u32, seq<u32>>, lv0: nat,
                     L0: seq<seq<u32>>, M: seq<seq<u32>>, rank: map<u32, int>, low: int, value: u32)
    requires Shape(size, f0, lv0, L0, rank, low) && Kept(f0, f)
    requires M == Removed(L0, value) || M == L0
    ensures forall i :: 0 <= i < LEVELS ==> AllGood(size, f, rank, low, M[i])
  {
    forall i, j | 0 <= i < LEVELS && 0 <= j < |M[i]|
      ensures Good(size, f, rank, low, M[i][j])
    {
      var h := M[i][j];
      assert h in M[i];
      WithoutMembers(L0[i], value, h);
      GoodOf(size, f0, rank, low, L0[i], h);
    }
  }

  /** The levels stay sorted. */
  lemma UnlinkedSorted(size: map<u32, u32>, f0: map<u32, seq<u32>>, lv0: nat,
                       L0: seq<seq<u32>>, M: seq<seq<u32>>, rank: map<u32, int>, low: int, value: u32)
    requires Shape(size, f0, lv0, L0, rank, low)
    requires M == Removed(L0, value) || M == L0
    ensures forall i :: 0 <= i < LEVELS ==> Sorted(size, rank, M[i])
  {
    forall i | 0 <= i < LEVELS
      ensures Sorted(size, rank, M[i])
    {
      SortedWithout(size, rank, L0[i], value);
    }
  }

  /** Every level stays within the one below it and within level 0. */
  lemma UnlinkedWithin(size: map<u32, u32>, f0: map<u32, seq<u32>>, lv0: nat,
                       L0: seq<seq<u32>>, M: seq<seq<u32>>, rank: map<u32, int>, low: int, value: u32)
    requires Shape(size, f0, lv0, L0, rank, low)
    requires M == Removed(L0, value) || M == L0
    ensures forall i :: 0 < i < LEVELS ==> Within(M[i], M[i - 1])
    ensures forall i :: 0 <= i < LEVELS ==> Within(M[i], M[0])
  {
    forall i, h {:trigger h in M[i]} | 0 <= i < LEVELS && h in M[i]
      ensures (i > 0 ==> h in M[i - 1]) && h in M[0]
    {
      WithoutMembers(L0[i], value, h);
      WithoutMembers(L0[0], value, h);
      if i > 0 {
        assert Within(L0[i], L0[i - 1]);
        WithoutMembers(L0[i - 1], value, h);
      }
    }
  }

  /** The node at the first position of size at least s is also the first of its own size. */
  lemma BestIsFirst(size: map<u32, u32>, Z: seq<u32>, s: u32)
    requires forall j :: 0 <= j < |Z| ==> Z[j] in size
    ensures var k := Below(size, Z, s);
      k < |Z| ==> Below(size, Z, size[Z[k]]) == k
  {
    var k := Below(size, Z, s);
    if k < |Z| {
      var b := Below(size, Z, size[Z[k]]);
      assert b <= k;
    }
  }

  /** Sizes for more headers, the same for every header already known, keep the shape. */
  lemma ShapeGrown(k: nat, size: map<u32, u32>, size': map<u32, u32>, f: map<u32, seq<u32>>, level: nat,
                   levels: seq<seq<u32>>, rank: map<u32, int>, low: int)
    requires Sealed(k, size, f, level, levels, rank, low)
    requires forall h :: h in size ==> h in size' && size'[h] == size[h]
    ensures Sealed(k, size', f, level, levels, rank, low)
  {
    Open(k, size, f, level, levels, rank, low);
    forall i | 0 <= i < LEVELS
      ensures AllGood(size', f, rank, low, levels[i]) && Sorted(size', rank, levels[i])
    {
      assert AllGood(size, f, rank, low, levels[i]) && Sorted(size, rank, levels[i]);
    }
    Close(k, size', f, level, levels, rank, low);
  }


  /** Giving a header that is on no level fresh pointers keeps the shape. */
  lemma RegisteredShape(size: map<u32, u32>, f: map<u32, seq<u32>>, level: nat,
                        levels: seq<seq<u32>>, rank: map<u32, int>, low: int, h: u32, fs: seq<u32>)
    requires Shape(size, f, level, levels, rank, low) && h != SENTINEL && h !in levels[0] && |fs| == LEVELS
    ensures Shape(size, f[h := fs], level, levels, rank, low)
  {
    forall i | 0 <= i < LEVELS
      ensures Chain(f[h := fs], i, levels[i]) && AllGood(size, f[h := fs], rank, low, levels[i])
    {
      assert h !in levels[i];
      AddFrame(f, h, fs, i, levels[i]);
    }
  }

  /**
   * The level-0 walk of delete as written: from node, the q-th node of level 0, follow level 0
   * until value. Meeting NULL first means the next step reads through NULL: a fault.
   */
  method SeekAsWritten(forward: map<u32, seq<u32>>, ghost Z: seq<u32>, ghost q0: nat, node0: u32, value: u32)
    returns (faulted: bool)
    requires Chain(forward, 0, Z) && value != NULL
    requires forall j :: 0 <= j < |Z| ==> Z[j] != NULL
    requires q0 <= |Z| && node0 == At(Z, q0) && forall j :: 0 <= j < q0 ==> Z[j] != value
    ensures faulted <==> value !in Z
  {
    ghost var q := q0;
    var node := node0;
    while node != value
      invariant q0 <= q <= |Z| && node == At(Z, q)
      invariant forall j :: 0 <= j < q ==> Z[j] != value
      decreases |Z| - q
    {
      if node == NULL {
        SeekEnd(Z, q, value);
        return true;
      }
      ChainAt(forward, 0, Z, q + 1);
      node := forward[node][0];
      q := q + 1;
    }
    SeekEnd(Z, q, value);
    faulted := false;
  }

  /** The level-0 walk of delete, stopping at NULL: is value on level 0? */
  method Seek(forward: map<u32, seq<u32>>, ghost Z: seq<u32>, ghost q0: nat, node0: u32, value: u32)
    returns (found: bool)
    requires Chain(forward, 0, Z) && value != NULL
    requires forall j :: 0 <= j < |Z| ==> Z[j] != NULL
    requires q0 <= |Z| && node0 == At(Z, q0) && forall j :: 0 <= j < q0 ==> Z[j] != value
    ensures found <==> value in Z
  {
    ghost var q := q0;
    var node := node0;
    while node != NULL && node != value
      invariant q0 <= q <= |Z| && node == At(Z, q)
      invariant forall j :: 0 <= j < q ==> Z[j] != value
      decreases |Z| - q
    {
      ChainAt(forward, 0, Z, q + 1);
      node := forward[node][0];
      q := q + 1;
    }
    SeekEnd(Z, q, value);
    found := node == value;
  }

  /** Where both walks end: at value, which is then on the level, or at NULL, past its end. */
  lemma SeekEnd(Z: seq<u32>, q: nat, value: u32)
    requires q <= |Z| && value != NULL
    requires forall j :: 0 <= j < |Z| ==> Z[j] != NULL
    requires forall j :: 0 <= j < q ==> Z[j] != value
    ensures At(Z, q) == NULL ==> value !in Z
    ensures At(Z, q) == value ==> value in Z
  {
    if value in Z {
      var p :| 0 <= p < |Z| && Z[p] == value;
      assert q <= p;
    }
  }

  /** The skip list's own state: the sentinel's and the headers' forward pointers and the level. */
  class BigBins {
    /** forward[SENTINEL] is klmalloc_big_bins.head.forward; forward[h] that of the header at h. */
    var forward: map<u32, seq<u32>>
    /** klmalloc_big_bins.level */
    var level: nat
    /** The nodes of every level in list order. */
    ghost var levels: seq<seq<u32>>
    /** Insertion order among nodes of equal size; every node's rank lies above low. */
    ghost var rank: map<u32, int>
    ghost var low: int

    /** The list is well formed for the header sizes size. */
    ghost predicate Valid(size: map<u32, u32>)
      reads this
    {
      Shape(size, forward, level, levels, rank, low)
    }

    /** The zero-initialised static klmalloc_big_bins: every level empty, level 0. */
    constructor ()
      ensures forward == map[SENTINEL := Nulls()] && level == 0
      ensures levels == [[], [], [], [], [], [], []]
      ensures forall size :: Valid(size)
    {
      forward := map[SENTINEL := Nulls()];
      level := 0;
      levels := [[], [], [], [], [], [], []];
      rank := map[];
      low := 0;
    }

    /**
     * The search shared by findbest, insert and delete: from the list level down to 0, advance
     * while the next node is smaller than s, and record where each level stopped. Levels
     * above the list level are empty, so their entry stays the sentinel.
     */
    method Walk(size: map<u32, u32>, s: u32) returns (update: seq<u32>)
      requires Valid(size)
      ensures |update| == LEVELS
      ensures forall i :: 0 <= i < LEVELS ==> update[i] == Pred(levels[i], Below(size, levels[i], s))
    {
      update := [SENTINEL, SENTINEL, SENTINEL, SENTINEL, SENTINEL, SENTINEL, SENTINEL];
      var node := SENTINEL;
      var i: int := level;
      while i >= 0
        invariant -1 <= i <= level && |update| == LEVELS
        invariant forall j :: i < j < LEVELS ==> update[j] == Pred(levels[j], Below(size, levels[j], s))
        invariant i >= 0 ==> node == SENTINEL || (node in levels[i] && node in size && size[node] < s)
        decreases i + 1
      {
        node := Advance(size, s, i, node);
        update := update[i := node];
        if node != SENTINEL && i > 0 {
          assert Within(levels[i], levels[i - 1]);
          assert node in levels[i] by {
            assert levels[i][Below(size, levels[i], s) - 1] == node;
          }
        }
        i := i - 1;
      }
    }

    /** The inner loop of the search on level i, from node on. */
    method Advance(size: map<u32, u32>, s: u32, i: nat, node0: u32) returns (node: u32)
      requires Valid(size) && i < LEVELS
      requires node0 == SENTINEL || (node0 in levels[i] && node0 in size && size[node0] < s)
      ensures node == Pred(levels[i], Below(size, levels[i], s))
      ensures node == SENTINEL || (node in size && size[node] < s)
    {
      ghost var L := levels[i];
      assert AllGood(size, forward, rank, low, L);
      ghost var k := Below(size, L, s);
      BelowSorted(size, rank, L, s);
      ghost var p: int := -1;
      if node0 != SENTINEL {
        p :| 0 <= p < |L| && L[p] == node0;
      }
      node := node0;
      ChainAt(forward, i, L, p + 1);
      while forward[node][i] != NULL && size[forward[node][i]] < s
        invariant -1 <= p < k && node == Pred(L, p + 1)
        invariant node in forward && i < |forward[node]| && forward[node][i] == At(L, p + 1)
        decreases |L| - p
      {
        node := forward[node][i];
        p := p + 1;
        ChainAt(forward, i, L, p + 1);
      }
    }

    /**
     * klmalloc_skip_list_findbest: the first level-0 node whose size is at least s, or NULL when
     * there is none. On the sorted level that is a best fit.
     */
    method FindBest(size: map<u32, u32>, s: u32) returns (r: u32)
      requires Valid(size)
      ensures r == At(levels[0], Below(size, levels[0], s))
      ensures r == NULL <==> forall h :: h in levels[0] ==> size[h] < s
      ensures r != NULL ==> r in levels[0] && size[r] >= s && r % PAGE_SIZE == 0 && (size[r] + BIG_HEADER) % PAGE_SIZE == 0
      ensures r != NULL ==> forall h :: h in levels[0] && size[h] >= s ==> size[r] <= size[h]
      ensures r != NULL ==> IsFirst(size, levels, r)
    {
      var update := Walk(size, s);
      ChainAt(forward, 0, levels[0], Below(size, levels[0], s));
      r := forward[update[0]][0];
      assert AllGood(size, forward, rank, low, levels[0]) && Sorted(size, rank, levels[0]);
      BestFit(size, forward, rank, low, levels[0], s);
      BestIsFirst(size, levels[0], s);
    }

    /**
     * Gives the header at h the forward pointers of freshly zeroed memory: a big block that
     * sbrk has just handed out, whose header holds no pointers yet.
     */
    method Register(size: map<u32, u32>, h: u32)
      requires Valid(size) && h % PAGE_SIZE == 0 && h !in levels[0]
      modifies this
      ensures forward == old(forward)[h := Nulls()]
      ensures level == old(level) && levels == old(levels) && rank == old(rank) && low == old(low)
      ensures Valid(size)
    {
      RegisteredShape(size, forward, level, levels, rank, low, h, Nulls());
      Install(size, forward[h := Nulls()], level, levels, rank, low);
    }

    /**
     * klmalloc_skip_list_insert. When value is already the first node of its size on level 0
     * nothing changes. Otherwise a level is drawn, the list level is raised to it, and value is
     * spliced in on every level up to it, in front of the nodes of its own size.
     */
    method Insert(size: map<u32, u32>, value: u32, rng: SkipRand.Xor128)
      requires Valid(size) && Node(size, forward, value)
      requires value !in levels[0] || IsFirst(size, levels, value)
      modifies this, rng
      ensures Valid(size) && Kept(old(forward), forward)
      ensures old(value in levels[0]) ==>
        forward == old(forward) && levels == old(levels) && level == old(level) && rng.Get() == old(rng.Get())
      ensures old(value !in levels[0]) ==>
        var height := SkipRand.LeadingBelow(SkipRand.Draws(old(rng.Get()), MAX_LEVEL));
        && level == (if height > old(level) then height else old(level))
        && levels == Spliced(size, old(levels), value, height)
        && rng.Get() == SkipRand.After(old(rng.Get()), height + 1)
    {
      var update := Walk(size, size[value]);
      assert AllGood(size, forward, rank, low, levels[0]);
      ChainAt(forward, 0, levels[0], Below(size, levels[0], size[value]));
      var node := forward[update[0]][0];
      if node != value {
        var height := SkipRand.RandomLevel(rng);
        if height > level {
          update := Raise(size, update, value, height);
        }
        Splice(size, update, value, height);
      } else {
        assert levels[0][Below(size, levels[0], size[value])] == value;
      }
    }

    /**
     * The levels from the list level + 1 up to height start at the sentinel: their update
     * entries are set to it before the splice.
     */
    method Raise(size: map<u32, u32>, update0: seq<u32>, value: u32, height: nat) returns (update: seq<u32>)
      requires Valid(size) && value in size && level < height <= MAX_LEVEL
      requires |update0| == LEVELS
      requires forall j :: 0 <= j < LEVELS ==> update0[j] == Pred(levels[j], Below(size, levels[j], size[value]))
      ensures |update| == LEVELS
      ensures forall j :: 0 <= j < LEVELS ==> update[j] == Pred(levels[j], Below(size, levels[j], size[value]))
    {
      update := update0;
      var i := level + 1;
      while i <= height
        invariant level + 1 <= i <= height + 1 && |update| == LEVELS
        invariant forall j :: 0 <= j < LEVELS ==> update[j] == Pred(levels[j], Below(size, levels[j], size[value]))
      {
        update := update[i := SENTINEL];
        i := i + 1;
      }
    }

    /**
     * The splicing loop of klmalloc_skip_list_insert: on every level up to height, value takes
     * over the pointer leaving update[i] and update[i] now points at value. value becomes the
     * node of lowest rank, and the list level is raised to height when that is higher.
     */
    method Splice(size: map<u32, u32>, update: seq<u32>, value: u32, height: nat)
      requires Valid(size) && height <= MAX_LEVEL
      requires Node(size, forward, value) && value !in levels[0]
      requires |update| == LEVELS
      requires forall i :: 0 <= i < LEVELS ==> update[i] == Pred(levels[i], Below(size, levels[i], size[value]))
      modifies this
      ensures level == (if height > old(level) then height else old(level))
      ensures levels == Spliced(size, old(levels), value, height)
      ensures Kept(old(forward), forward)
      ensures Valid(size)
    {
      var f := SpliceAll(size, update, value, height, level);
      SplicedShape(size, forward, f, level, height, levels, rank, low, value);
      Install(size, f, if height > level then height else level, Spliced(size, levels, value, height), rank[value := low], low - 1);
    }

    /** Installs new forward pointers and list level, with the levels they thread and the ranks. */
    method Install(size: map<u32, u32>, f: map<u32, seq<u32>>, lv: nat, ghost M: seq<seq<u32>>,
                   ghost rk: map<u32, int>, ghost lw: int)
      requires Shape(size, f, lv, M, rk, lw)
      modifies this
      ensures forward == f && level == lv && levels == M && rank == rk && low == lw
      ensures Valid(size)
    {
      forward, level, levels, rank, low := f, lv, M, rk, lw;
    }

    /** The loop of Splice, on a copy of the forward pointers. */
    method SpliceAll(size: map<u32, u32>, update: seq<u32>, value: u32, height: nat, ghost lv0: nat)
      returns (f: map<u32, seq<u32>>)
      requires Shape(size, forward, lv0, levels, rank, low) && height <= MAX_LEVEL
      requires Node(size, forward, value) && value !in levels[0]
      requires |update| == LEVELS
      requires forall i :: 0 <= i < LEVELS ==> update[i] == Pred(levels[i], Below(size, levels[i], size[value]))
      ensures Kept(forward, f)
      ensures forall j :: 0 <= j < LEVELS ==> Chain(f, j, Spliced(size, levels, value, height)[j])
    {
      ghost var L0 := levels;
      ghost var M := Spliced(size, L0, value, height);
      f := forward;
      var i := 0;
      while i <= height
        invariant 0 <= i <= height + 1
        invariant Kept(forward, f)
        invariant forall j :: 0 <= j < i ==> Chain(f, j, M[j])
        invariant forall j :: i <= j < LEVELS ==> Chain(f, j, L0[j])
      {
        ghost var k := Below(size, L0[i], size[value]);
        assert AllGood(size, forward, rank, low, L0[i]) && Within(L0[i], L0[0]);
        SortedDistinct(size, rank, L0[i]);
        ChainAt(f, i, L0[i], k);
        SpliceLevel(f, i, L0, M, k, value);
        KeptBend(forward, f, value, i, f[update[i]][i]);
        f := f[value := Bend(f[value], i, f[update[i]][i])];
        KeptBend(forward, f, update[i], i, value);
        f := f[update[i] := Bend(f[update[i]], i, value)];
        i := i + 1;
      }
    }

    /**
     * klmalloc_skip_list_delete as the source has it. After the shared search it follows level 0
     * until it meets value; when value is not on the list that walk reads the forward pointers
     * of NULL, which is reported as a fault. Otherwise the node is unlinked as in Unlink.
     */
    method DeleteAsWritten(size: map<u32, u32>, value: u32) returns (faulted: bool)
      requires Valid(size) && value != NULL && value in size
      modifies this
      ensures faulted <==> old(value !in levels[0])
      ensures faulted ==> forward == old(forward) && level == old(level) && levels == old(levels)
      ensures !faulted ==> levels == Unlinking(size, old(levels), value) && level <= old(level)
      ensures !faulted && !old(IsFirst(size, levels, value)) ==> forward == old(forward) && level == old(level)
      ensures Valid(size) && Kept(old(forward), forward)
    {
      var update := Walk(size, size[value]);
      SeekStart(size, value);
      faulted := SeekAsWritten(forward, levels[0], Below(size, levels[0], size[value]), forward[update[0]][0], value);
      if !faulted {
        Unlink(size, update, value);
      }
    }

    /**
     * klmalloc_skip_list_delete as its comment intends: a value that is not on the list is left
     * alone. The walk along level 0 stops at NULL instead of reading through it.
     */
    method Delete(size: map<u32, u32>, value: u32)
      requires Valid(size) && value != NULL && value in size
      modifies this
      ensures old(value !in levels[0]) ==> forward == old(forward) && level == old(level) && levels == old(levels)
      ensures old(value in levels[0]) ==> levels == Unlinking(size, old(levels), value) && level <= old(level)
      ensures old(value in levels[0] && !IsFirst(size, levels, value)) ==> forward == old(forward) && level == old(level)
      ensures Valid(size) && Kept(old(forward), forward)
    {
      var update := Walk(size, size[value]);
      SeekStart(size, value);
      var found := Seek(forward, levels[0], Below(size, levels[0], size[value]), forward[update[0]][0], value);
      if found {
        Unlink(size, update, value);
      }
    }

    /** Where both walks start: on level 0 after the nodes smaller than value, with value not among them. */
    lemma SeekStart(size: map<u32, u32>, value: u32)
      requires Valid(size) && value in size
      ensures Chain(forward, 0, levels[0])
      ensures forall j :: 0 <= j < |levels[0]| ==> levels[0][j] != NULL
      ensures var q := Below(size, levels[0], size[value]);
        && forward[Pred(levels[0], q)][0] == At(levels[0], q)
        && forall j :: 0 <= j < q ==> levels[0][j] != value
    {
      assert AllGood(size, forward, rank, low, levels[0]);
      ChainAt(forward, 0, levels[0], Below(size, levels[0], size[value]));
    }

    /**
     * The unlinking part of klmalloc_skip_list_delete: from level 0 up, while the pointer leaving
     * update[i] is value, it is bent past value; then the list level drops while the sentinel's
     * top pointer is NULL. When value is the first node of its size on level 0, it leaves every
     * level; otherwise the first test fails and nothing changes.
     */
    method Unlink(size: map<u32, u32>, update: seq<u32>, value: u32)
      requires Valid(size) && value in size && value in levels[0]
      requires |update| == LEVELS
      requires forall i :: 0 <= i < LEVELS ==> update[i] == Pred(levels[i], Below(size, levels[i], size[value]))
      modifies this
      ensures levels == Unlinking(size, old(levels), value) && level <= old(level)
      ensures !IsFirst(size, old(levels), value) ==> forward == old(forward) && level == old(level)
      ensures Valid(size) && Kept(old(forward), forward)
    {
      var f, lv, M := Unlinked(size, update, value);
      Install(size, f, lv, M, rank, low);
    }

    /** The new forward pointers, list level and levels Unlink installs, computed from the current ones. */
    method Unlinked(size: map<u32, u32>, update: seq<u32>, value: u32) returns (f: map<u32, seq<u32>>, lv: nat, ghost M: seq<seq<u32>>)
      requires Valid(size) && value in size && value in levels[0]
      requires |update| == LEVELS
      requires forall i :: 0 <= i < LEVELS ==> update[i] == Pred(levels[i], Below(size, levels[i], size[value]))
      ensures Shape(size, f, lv, M, rank, low)
      ensures M == Unlinking(size, levels, value) && lv <= level
      ensures !IsFirst(size, levels, value) ==> f == forward && lv == level
      ensures Kept(forward, f)
    {
      ghost var i, L0;
      L0 := levels;
      f, i := UnlinkAll(size, update, value);
      M := seq(LEVELS, j requires 0 <= j < LEVELS => if j < i then Without(L0[j], value) else L0[j]);
      RemovedAll(size, forward, f, level, L0, rank, low, value, i, M);
      lv := Lowered(size, f, M, value);
      UnlinkedShape(size, forward, f, level, lv, L0, M, rank, low, value);
    }

    /**
     * The unlinking loop, on a copy of the forward pointers: it stops at level i, past which
     * value is on no level when it is the first of its size, and at once otherwise.
     */
    method UnlinkAll(size: map<u32, u32>, update: seq<u32>, value: u32) returns (f: map<u32, seq<u32>>, ghost i: nat)
      requires Valid(size) && value in size && value in levels[0]
      requires |update| == LEVELS
      requires forall i :: 0 <= i < LEVELS ==> update[i] == Pred(levels[i], Below(size, levels[i], size[value]))
      ensures i <= LEVELS && Kept(forward, f)
      ensures forall j :: 0 <= j < i ==> Chain(f, j, Without(levels[j], value))
      ensures forall j :: i <= j < LEVELS ==> Chain(f, j, levels[j])
      ensures IsFirst(size, levels, value) ==> forall j :: i <= j < LEVELS ==> value !in levels[j]
      ensures !IsFirst(size, levels, value) ==> i == 0 && f == forward
    {
      ghost var L0 := levels;
      ghost var first := IsFirst(size, levels, value);
      assert Good(size, forward, rank, low, value) by {
        GoodOf(size, forward, rank, low, L0[0], value);
      }
      f := forward;
      var n := 0;
      while n <= level
        invariant 0 <= n <= level + 1
        invariant Kept(forward, f) && value in f && f[value] == forward[value]
        invariant forall j :: 0 <= j < n ==> Chain(f, j, Without(L0[j], value))
        invariant forall j :: n <= j < LEVELS ==> Chain(f, j, L0[j])
        invariant n > 0 ==> first
        invariant n == 0 ==> f == forward
      {
        UnlinkRound(size, forward, level, L0, rank, low, update, value, f, n);
        if f[update[n]][n] != value {
          break;
        }
        f := f[update[n] := Bend(f[update[n]], n, f[value][n])];
        n := n + 1;
      }
      i := n;
    }

    /** The lowering loop of delete: the level drops while the sentinel's top pointer is NULL. */
    method Lowered(size: map<u32, u32>, f: map<u32, seq<u32>>, ghost M: seq<seq<u32>>, value: u32) returns (lv: nat)
      requires |M| == LEVELS && level <= MAX_LEVEL
      requires forall j :: 0 <= j < LEVELS ==> Chain(f, j, M[j])
      requires forall j, q :: 0 <= j < LEVELS && 0 <= q < |M[j]| ==> M[j][q] != NULL
      requires forall j :: level < j < LEVELS ==> M[j] == []
      ensures lv <= level && (forall j :: lv < j < LEVELS ==> M[j] == []) && (lv > 0 ==> M[lv] != [])
      ensures level > 0 && M[level] != [] ==> lv == level
    {
      lv := level;
      while lv > 0 && f[SENTINEL][lv] == NULL
        invariant lv <= level
        invariant forall j :: lv < j < LEVELS ==> M[j] == []
        invariant level > 0 && M[level] != [] ==> lv == level
      {
        assert Chain(f, lv, M[lv]);
        lv := lv - 1;
      }
      assert Chain(f, lv, M[lv]);
    }
  }
}
