// The random levels of klmalloc's skip list (src/alloc.c): Marsaglia's xor128 xorshift
// generator with its four static 32-bit words, and the geometric level draw on top of it.
module SkipRand {
  /** SKIP_P is INT32_MAX: a draw below it happens about half of the time. */
  const SKIP_P: bv32 := 0x7FFF_FFFF
  const SKIP_MAX_LEVEL: nat := 6

  /** The four words x, y, z, w of the generator. */
  datatype State = State(x: bv32, y: bv32, z: bv32, w: bv32)

  /** The words the generator starts from. */
  const SEED: State := State(123456789, 362436069, 521288629, 88675123)

  predicate NonZero(s: State) {
    s.x != 0 || s.y != 0 || s.z != 0 || s.w != 0
  }

  /** One xor128 step; the value klmalloc_skip_rand returns is the new w. */
  function Step(s: State): State {
    var t := s.x ^ (s.x << 11);
    State(s.y, s.z, s.w, s.w ^ (s.w >> 19) ^ t ^ (t >> 8))
  }

  /** The state after n draws. */
  function After(s: State, n: nat): State
    decreases n
  {
    if n == 0 then s else After(Step(s), n - 1)
  }

  /** The values of n successive draws from s. */
  function Draws(s: State, n: nat): (d: seq<bv32>)
    ensures |d| == n
    decreases n
  {
    if n == 0 then [] else [Step(s).w] + Draws(Step(s), n - 1)
  }

  /** How many of the draws d, from the first on, lie below SKIP_P. */
  function LeadingBelow(d: seq<bv32>): (r: nat)
    ensures r <= |d|
    ensures forall j :: 0 <= j < r ==> d[j] < SKIP_P
    ensures r < |d| ==> d[r] >= SKIP_P
  {
    if d == [] || d[0] >= SKIP_P then 0 else 1 + LeadingBelow(d[1..])
  }

  /** A draw below SKIP_P right after k leading ones makes k + 1 of them. */
  lemma BelowExtends(d: seq<bv32>, k: nat)
    requires k <= LeadingBelow(d) && k < |d| && d[k] < SKIP_P
    ensures k + 1 <= LeadingBelow(d)
  {
  }

  /** A draw at or above SKIP_P, or the end of the draws, right after k leading ones ends the run. */
  lemma BelowStops(d: seq<bv32>, k: nat)
    requires k <= LeadingBelow(d) && k <= |d| && (k == |d| || d[k] >= SKIP_P)
    ensures LeadingBelow(d) == k
  {
  }

  /** The j-th draw is the output of the step taken from the state after j draws. */
  lemma {:induction false} DrawAt(s: State, n: nat, j: nat)
    requires j < n
    ensures Draws(s, n)[j] == Step(After(s, j)).w
    decreases j
  {
    if j > 0 {
      DrawAt(Step(s), n - 1, j - 1);
    }
  }

  /** Taking one more step extends the state after j draws. */
  lemma {:induction false} AfterStep(s: State, j: nat)
    ensures After(s, j + 1) == Step(After(s, j))
    decreases j
  {
    if j > 0 {
      AfterStep(Step(s), j - 1);
    }
  }

  /** xor128 never reaches the all-zero state from a state that is not all zero. */
  lemma {:induction false} AfterNonZero(s: State, n: nat)
    requires NonZero(s)
    ensures NonZero(After(s, n))
    decreases n
  {
    if n > 0 {
      StepNonZero(s);
      AfterNonZero(Step(s), n - 1);
    }
  }

  lemma StepNonZero(s: State)
    requires NonZero(s)
    ensures NonZero(Step(s))
  {
    if s.y == 0 && s.z == 0 && s.w == 0 {
      var t := s.x ^ (s.x << 11);
      assert t != 0;
      assert t ^ (t >> 8) != 0;
    }
  }

  /** The static words of klmalloc_skip_rand. */
  class Xor128 {
    var x: bv32
    var y: bv32
    var z: bv32
    var w: bv32

    function Get(): State
      reads this
    {
      State(x, y, z, w)
    }

    constructor ()
      ensures Get() == SEED
    {
      x, y, z, w := 123456789, 362436069, 521288629, 88675123;
    }

    /** klmalloc_skip_rand: one step; the result is the new w. */
    method Next() returns (r: bv32)
      modifies this
      ensures Get() == Step(old(Get())) && r == w
    {
      var next := Step(Get());
      x, y, z, w := next.x, next.y, next.z, next.w;
      r := w;
    }
  }

  /**
   * klmalloc_random_level: the number of leading draws below SKIP_P, capped at SKIP_MAX_LEVEL.
   * The draw is taken before the cap is tested, so exactly level + 1 draws are used.
   */
  method RandomLevel(rng: Xor128) returns (level: nat)
    modifies rng
    ensures level <= SKIP_MAX_LEVEL
    ensures level == LeadingBelow(Draws(old(rng.Get()), SKIP_MAX_LEVEL))
    ensures rng.Get() == After(old(rng.Get()), level + 1)
  {
    // Every draw below SKIP_P raises the level; the first draw at or above it, or the cap,
    // ends the loop.
    ghost var s0 := rng.Get();
    ghost var d := Draws(s0, SKIP_MAX_LEVEL);
    level := 0;
    while true
      invariant level <= SKIP_MAX_LEVEL && level <= LeadingBelow(d)
      invariant rng.Get() == After(s0, level)
      decreases SKIP_MAX_LEVEL - level
    {
      var r := rng.Next();
      AfterStep(s0, level);
      if !(r < SKIP_P && level < SKIP_MAX_LEVEL) {
        if level < SKIP_MAX_LEVEL {
          DrawAt(s0, SKIP_MAX_LEVEL, level);
        }
        BelowStops(d, level);
        break;
      }
      DrawAt(s0, SKIP_MAX_LEVEL, level);
      BelowExtends(d, level);
      level := level + 1;
    }
  }
}
