/** The engine's pseudo-random numbers: a linear congruential generator on a
    32-bit state, bounded sampling for u32, usize (64 bits) and i32, and the
    Fisher-Yates shuffle built on it. The generator is an object whose
    `state` each draw updates in place. */
module SimpleRngs {
  import opened Wrappers
  import opened Terminal

  const A: u32 := 1664525
  const C: u32 := 1013904223

  /** The multiplicative inverse of A modulo 2^32. */
  const A_INVERSE: u32 := 4276115653

  const USIZE_LIMIT: int := 0x1_0000_0000_0000_0000
  type usize = x: int | 0 <= x < USIZE_LIMIT

  function WrappingMul(a: u32, b: u32): u32 { (a * b) % U32_LIMIT }

  function WrappingAdd(a: u32, b: u32): u32 { (a + b) % U32_LIMIT }

  /** One draw: the state `gen` moves to, and the value it returns. */
  function Next(s: u32): u32 {
    WrappingAdd(WrappingMul(s, A), C)
  }

  /** The two wrapping operations make one affine step modulo 2^32. */
  lemma NextIsAffine(s: u32)
    ensures Next(s) == (s * A + C) % U32_LIMIT
  {
    ModAddMultiple(s * A % U32_LIMIT + C, s * A / U32_LIMIT, U32_LIMIT);
  }

  /** The state before a draw: `Next` run backwards. */
  function Prev(r: u32): u32 {
    WrappingMul((r - C) % U32_LIMIT, A_INVERSE)
  }

  /** A is odd, so every draw can be undone: the generator permutes the 2^32
      states. */
  lemma PrevUndoesNext(s: u32)
    ensures Prev(Next(s)) == s
  {
    var m := U32_LIMIT;
    var n := Next(s);
    NextIsAffine(s);
    assert n == s * A + C - (s * A + C) / m * m;
    ModAddMultiple(s * A, -((s * A + C) / m), m);
    assert (n - C) % m == s * A % m;
    ModMulLeft(s * A, A_INVERSE, m);
    assert A * A_INVERSE == 1657219 * m + 1;
    assert s * A * A_INVERSE == s + (s * 1657219) * m;
    ModAddMultiple(s, s * 1657219, m);
  }

  /** Distinct seeds give distinct first draws. */
  lemma NextInjective(s1: u32, s2: u32)
    requires s1 != s2
    ensures Next(s1) != Next(s2)
  {
    PrevUndoesNext(s1);
    PrevUndoesNext(s2);
  }

  lemma ModAddMultiple(x: int, k: int, m: int)
    requires m > 0
    ensures (x + k * m) % m == x % m
  {
    assert x + k * m == (x / m + k) * m + x % m;
    DivModUnique(x + k * m, m, x / m + k, x % m);
  }

  lemma ModMulLeft(x: int, y: int, m: int)
    requires m > 0
    ensures (x % m) * y % m == x * y % m
  {
    assert x * y == (x % m) * y + ((x / m) * y) * m by {
      assert x == (x / m) * m + x % m;
    }
    ModAddMultiple((x % m) * y, (x / m) * y, m);
  }

  // ---------------------------------------------------------------- sampling

  /** The body of `gen_range` for an unsigned type of `limit` values, as
      written: the range size is `end.wrapping_sub(start)`, the assert
      rejects only a zero size, and the final addition panics when it
      overflows. None is a panic. */
  function SampleUnsigned(g: int, start: int, end: int, limit: int): Option<int>
    requires 0 <= g < limit && 0 <= start < limit && 0 <= end < limit
  {
    var size := (end - start) % limit;
    if size == 0 then None
    else if start + g % size < limit then Some(start + g % size)
    else None
  }

  /** The body of `gen_range` for i32, as written: a wrapping range size,
      an assert that it is positive, and an i32 addition that panics when
      it overflows. None is a panic. */
  function SampleI32(g: u32, start: i32, end: i32): Option<i32>
  {
    var size := WrapI32(end - start);
    if size <= 0 then None
    else
      var v := start + g % size;
      if -0x8000_0000 <= v < 0x8000_0000 then Some(v) else None
  }

  /** `x as i32` (and `wrapping_sub`) for a value of the i33 range. */
  function WrapI32(x: int): (r: i32)
    requires -U32_LIMIT < x < U32_LIMIT
    ensures r == x || r == x - U32_LIMIT || r == x + U32_LIMIT
  {
    if x >= 0x8000_0000 then x - U32_LIMIT
    else if x < -0x8000_0000 then x + U32_LIMIT
    else x
  }

  /** What `gen_range` evidently intends: a value of [start, end), and a
      panic (None) exactly when the range is empty. */
  function SampleChecked(g: nat, start: int, end: int): (r: Option<int>)
    ensures r.Some? <==> start < end
    ensures r.Some? ==> start <= r.value < end && r.value - start == g % (end - start)
  {
    if start < end then Some(start + g % (end - start)) else None
  }

  /** On a well-formed range the unsigned sampler as written is the intended
      one. */
  lemma UnsignedSampleAgrees(g: int, start: int, end: int, limit: int)
    requires 0 <= g < limit && 0 <= start < end < limit
    ensures SampleUnsigned(g, start, end, limit) == SampleChecked(g, start, end)
  {
    DivModUnique(end - start, limit, 0, end - start);
  }

  /** A reversed u32 range is not rejected: the wrapping size 2^32 - 10 is
      positive, and from seed 0 `gen_range(20..10)` returns 1013904243, a
      value outside any reading of the range. */
  lemma ReversedU32RangePassesAssert()
    ensures Next(0) == 1013904223
    ensures SampleUnsigned(Next(0), 20, 10, U32_LIMIT) == Some(1013904243)
    ensures SampleChecked(Next(0), 20, 10) == None
  {
  }

  /** On an i32 range narrower than 2^31 the i32 sampler as written is the
      intended one. */
  lemma I32SampleAgrees(g: u32, start: i32, end: i32)
    requires start < end && end - start < 0x8000_0000
    ensures SampleI32(g, start, end) == SampleChecked(g, start, end)
  {
  }

  /** A well-formed i32 range 2^31 or more wide is rejected: its wrapping
      size is negative, so `gen_range(-2000000000..2000000000)` panics
      whatever the state, though the range is not empty. */
  lemma WideI32RangePanics(g: u32)
    ensures SampleI32(g, -2000000000, 2000000000) == None
    ensures SampleChecked(g, -2000000000, 2000000000).Some?
  {
  }

  // ---------------------------------------------------------------- the generator

  class SimpleRng {
    var state: u32

    /** `SimpleRng::new`. */
    constructor (seed: u32)
      ensures state == seed
    {
      state := seed;
    }

    /** `gen`: advance the state and return it. */
    method Gen() returns (r: u32)
      modifies this
      ensures state == Next(old(state)) && r == state
    {
      state := WrappingAdd(WrappingMul(state, A), C);
      r := state;
    }

    /** `gen_usize`: two draws, the first as the high 32 bits. */
    method GenUsize() returns (r: usize)
      modifies this
      ensures state == Next(Next(old(state)))
      ensures r == DrawUsize(old(state))
    {
      var high := Gen();
      var low := Gen();
      r := high * U32_LIMIT + low;
    }

    /** `gen_range` on u32, as intended (see `SampleUnsigned` for the code as
        written): one draw for a non-empty range, a panic (None) otherwise. */
    method GenRangeU32(start: u32, end: u32) returns (r: Option<int>)
      modifies this
      ensures r == SampleChecked(Next(old(state)), start, end)
      ensures state == if start < end then Next(old(state)) else old(state)
    {
      if start >= end {
        return None;
      }
      var g := Gen();
      r := Some(start + g % (end - start));
    }

    /** `gen_range` on usize, as intended: two draws for a non-empty range. */
    method GenRangeUsize(start: usize, end: usize) returns (r: Option<int>)
      modifies this
      ensures r == SampleChecked(DrawUsize(old(state)), start, end)
      ensures state == if start < end then Next(Next(old(state))) else old(state)
    {
      if start >= end {
        return None;
      }
      var g := GenUsize();
      r := Some(start + g % (end - start));
    }

    /** `gen_range` on i32, as intended: one draw for a non-empty range. */
    method GenRangeI32(start: i32, end: i32) returns (r: Option<int>)
      modifies this
      ensures r == SampleChecked(Next(old(state)), start, end)
      ensures state == if start < end then Next(old(state)) else old(state)
    {
      if start >= end {
        return None;
      }
      var g := Gen();
      r := Some(start + g % (end - start));
    }
  }

  // ---------------------------------------------------------------- shuffle

  function Swap<T>(s: seq<T>, i: nat, j: nat): seq<T>
    requires i < |s| && j < |s|
  {
    s[i := s[j]][j := s[i]]
  }

  lemma SwapPermutes<T>(s: seq<T>, i: nat, j: nat)
    requires i < |s| && j < |s|
    ensures |Swap(s, i, j)| == |s| && multiset(Swap(s, i, j)) == multiset(s)
  {
  }

  /** The value `gen_usize` draws from state st: the first draw as the high
      32 bits, the second as the low 32 bits. */
  function DrawUsize(st: u32): nat {
    Next(st) * U32_LIMIT + Next(Next(st))
  }

  /** The draws and swaps of `shuffle` from position i on: position i is
      swapped with a position drawn from [i, |s|). Returns the final
      sequence and the generator's final state. */
  function ShuffleFrom<T>(s: seq<T>, i: nat, state: u32): (r: (seq<T>, u32))
    requires i <= |s|
    decreases |s| - i
  {
    if i == |s| then (s, state)
    else
      var j := i + DrawUsize(state) % (|s| - i);
      ShuffleFrom(Swap(s, i, j), i + 1, Next(Next(state)))
  }

  /** The shuffle only reorders: same length, same elements with the same
      multiplicities. */
  lemma {:induction false} ShufflePermutes<T>(s: seq<T>, i: nat, state: u32)
    requires i <= |s|
    ensures |ShuffleFrom(s, i, state).0| == |s|
    ensures multiset(ShuffleFrom(s, i, state).0) == multiset(s)
    decreases |s| - i
  {
    if i < |s| {
      var j := i + DrawUsize(state) % (|s| - i);
      SwapPermutes(s, i, j);
      ShufflePermutes(Swap(s, i, j), i + 1, Next(Next(state)));
    }
  }

  /** `shuffle` (also copied as the private `shuffle` of the colour
      resolver): a permutation of the array, drawn from the generator. */
  method Shuffle<T>(a: array<T>, rng: SimpleRng)
    requires a.Length < USIZE_LIMIT
    modifies a, rng
    ensures (a[..], rng.state) == ShuffleFrom(old(a[..]), 0, old(rng.state))
    ensures multiset(a[..]) == multiset(old(a[..]))
  {
    ShufflePermutes(a[..], 0, rng.state);
    ghost var spec := ShuffleFrom(a[..], 0, rng.state);
    var len := a.Length;
    for i := 0 to len
      invariant ShuffleFrom(a[..], i, rng.state) == spec
    {
      ShuffleTurn(a, rng, i);
    }
    assert ShuffleFrom(a[..], len, rng.state) == (a[..], rng.state);
  }

  /** The loop body of `shuffle`: draw j from [i, len) and swap. */
  method ShuffleTurn<T>(a: array<T>, rng: SimpleRng, i: nat)
    requires i < a.Length < USIZE_LIMIT
    modifies a, rng
    ensures ShuffleFrom(a[..], i + 1, rng.state) == ShuffleFrom(old(a[..]), i, old(rng.state))
  {
    ghost var before := a[..];
    ghost var st := rng.state;
    var j := rng.GenRangeUsize(i, a.Length);
    assert j == SampleChecked(DrawUsize(st), i, a.Length);
    a[i], a[j.value] := a[j.value], a[i];
    assert a[..] == Swap(before, i, j.value);
    ShuffleStep(before, a.Length, i, st, j.value);
  }

  /** One turn of the shuffle loop advances `ShuffleFrom` by one position. */
  lemma ShuffleStep<T>(s: seq<T>, n: nat, i: nat, st: u32, j: nat)
    requires n == |s| && i < n
    requires j == i + DrawUsize(st) % (n - i)
    ensures j < |s|
    ensures ShuffleFrom(Swap(s, i, j), i + 1, Next(Next(st))) == ShuffleFrom(s, i, st)
  {
    var g := DrawUsize(st);
    var low := Next(Next(st));
    assert ShuffleFrom(s, i, st) == ShuffleFrom(Swap(s, i, i + g % (|s| - i)), i + 1, low);
  }
}
