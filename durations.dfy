/** Millisecond durations stored in a u32 (src/duration.rs). Rust panics on
    u32 overflow and underflow in debug builds; here those operations return
    `Err`. The rest of the engine counts milliseconds as `nat`. */
module Durations {
  import opened Wrappers
  import opened Terminal

  datatype ArithmeticError = Overflow | Underflow

  /** The derived equality is that of the millisecond field, and so is
      the derived ordering (see `Compare`). */
  datatype Duration = Duration(milliseconds: u32)

  datatype Ordering = Less | Equal | Greater

  const ZERO: Duration := Duration(0)

  function FromMillis(ms: u32): Duration { Duration(ms) }

  function FromSecs(seconds: u32): (r: Result<Duration, ArithmeticError>)
    ensures r.Ok? <==> seconds * 1000 < U32_LIMIT
    ensures r.Ok? ==> r.value.milliseconds == seconds * 1000
  {
    if seconds * 1000 < U32_LIMIT then Ok(Duration(seconds * 1000)) else Err(Overflow)
  }

  predicate IsZero(d: Duration) { d.milliseconds == 0 }

  /** Derived `Ord`: the order of the millisecond counts. */
  function Compare(a: Duration, b: Duration): (r: Ordering)
    ensures r == Equal <==> a == b
    ensures r == Less <==> a.milliseconds < b.milliseconds
    ensures r == Greater <==> b.milliseconds < a.milliseconds
  {
    if a.milliseconds < b.milliseconds then Less
    else if a.milliseconds == b.milliseconds then Equal
    else Greater
  }

  function CheckedSub(a: Duration, b: Duration): (r: Option<Duration>)
    ensures r.Some? <==> b.milliseconds <= a.milliseconds
    ensures r.Some? ==> r.value.milliseconds + b.milliseconds == a.milliseconds
  {
    if b.milliseconds <= a.milliseconds then Some(Duration(a.milliseconds - b.milliseconds)) else None
  }

  function Add(a: Duration, b: Duration): (r: Result<Duration, ArithmeticError>)
    ensures r.Ok? <==> a.milliseconds + b.milliseconds < U32_LIMIT
    ensures r.Ok? ==> r.value.milliseconds == a.milliseconds + b.milliseconds
  {
    AddMillis(a, b.milliseconds)
  }

  function AddMillis(a: Duration, ms: u32): (r: Result<Duration, ArithmeticError>)
    ensures r.Ok? <==> a.milliseconds + ms < U32_LIMIT
    ensures r.Ok? ==> r.value.milliseconds == a.milliseconds + ms
  {
    if a.milliseconds + ms < U32_LIMIT then Ok(Duration(a.milliseconds + ms)) else Err(Overflow)
  }

  function Sub(a: Duration, b: Duration): (r: Result<Duration, ArithmeticError>)
    ensures r.Ok? <==> b.milliseconds <= a.milliseconds
    ensures r.Ok? ==> r.value.milliseconds == a.milliseconds - b.milliseconds
  {
    SubMillis(a, b.milliseconds)
  }

  function SubMillis(a: Duration, ms: u32): (r: Result<Duration, ArithmeticError>)
    ensures r.Ok? <==> ms <= a.milliseconds
    ensures r.Ok? ==> r.value.milliseconds == a.milliseconds - ms
  {
    if ms <= a.milliseconds then Ok(Duration(a.milliseconds - ms)) else Err(Underflow)
  }

  /** `Duration * u32`. */
  function Mul(d: Duration, n: u32): (r: Result<Duration, ArithmeticError>)
    ensures r.Ok? <==> d.milliseconds * n < U32_LIMIT
    ensures r.Ok? ==> r.value.milliseconds == d.milliseconds * n
  {
    if d.milliseconds * n < U32_LIMIT then Ok(Duration(d.milliseconds * n)) else Err(Overflow)
  }

  /** `u32 * Duration`. */
  function MulLeft(n: u32, d: Duration): (r: Result<Duration, ArithmeticError>)
    ensures r == Mul(d, n)
  {
    if n * d.milliseconds < U32_LIMIT then Ok(Duration(n * d.milliseconds)) else Err(Overflow)
  }

  /** `Sum`: fold `Add` over the sequence starting from ZERO. */
  function Sum(ds: seq<Duration>): Result<Duration, ArithmeticError> {
    SumFrom(ZERO, ds)
  }

  function SumFrom(acc: Duration, ds: seq<Duration>): Result<Duration, ArithmeticError>
    decreases |ds|
  {
    if ds == [] then Ok(acc)
    else
      var next :- Add(acc, ds[0]);
      SumFrom(next, ds[1..])
  }

  /** The total number of milliseconds, without the u32 bound. */
  function Total(ds: seq<Duration>): nat {
    if ds == [] then 0 else ds[0].milliseconds + Total(ds[1..])
  }

  /** The total of a concatenation is the sum of the totals. */
  lemma {:induction false} TotalAppend(a: seq<Duration>, b: seq<Duration>)
    ensures Total(a + b) == Total(a) + Total(b)
    decreases |a|
  {
    if a != [] {
      assert (a + b)[1..] == a[1..] + b;
      TotalAppend(a[1..], b);
    } else {
      assert a + b == b;
    }
  }

  lemma SubUndoesAdd(a: Duration, b: Duration)
    requires Add(a, b).Ok?
    ensures Sub(Add(a, b).value, b) == Ok(a)
    ensures CheckedSub(Add(a, b).value, b) == Some(a)
  {
  }

  lemma CheckedSubAgreesWithSub(a: Duration, b: Duration)
    ensures CheckedSub(a, b).Some? <==> Sub(a, b).Ok?
    ensures Sub(a, b).Ok? ==> CheckedSub(a, b) == Some(Sub(a, b).value)
  {
  }

  lemma FromSecsIsScaledSecond(seconds: u32)
    ensures FromSecs(seconds) == Mul(FromMillis(1000), seconds)
  {
  }

  lemma ZeroIsZero()
    ensures IsZero(ZERO)
    ensures forall d: Duration :: IsZero(d) <==> d == ZERO
  {
  }

  lemma {:induction false} SumFromIsTotal(acc: Duration, ds: seq<Duration>)
    ensures SumFrom(acc, ds) ==
      if acc.milliseconds + Total(ds) < U32_LIMIT
      then Ok(Duration(acc.milliseconds + Total(ds))) else Err(Overflow)
    decreases |ds|
  {
    if ds != [] {
      if acc.milliseconds + ds[0].milliseconds < U32_LIMIT {
        SumFromIsTotal(Add(acc, ds[0]).value, ds[1..]);
      }
    }
  }

  /** The sum of an empty sequence is ZERO; otherwise it is the total of the
      parts, and an error exactly when that total leaves the u32 range. */
  lemma SumIsTotal(ds: seq<Duration>)
    ensures Sum([]) == Ok(ZERO)
    ensures Sum(ds) == if Total(ds) < U32_LIMIT then Ok(Duration(Total(ds))) else Err(Overflow)
  {
    SumFromIsTotal(ZERO, ds);
  }

  /** The test at src/duration.rs:181-188. */
  lemma SumExample()
    ensures Sum([FromMillis(100), FromMillis(200), FromMillis(300)]) == Ok(FromMillis(600))
  {
    SumIsTotal([FromMillis(100), FromMillis(200), FromMillis(300)]);
  }
}
