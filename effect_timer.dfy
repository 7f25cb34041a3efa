/** The effect timer: a countdown of `remaining` out of `total` milliseconds,
    an interpolation that shapes its alpha, and a reverse flag. It is a plain
    value (copied, never shared); `Process` returns the advanced timer. */
module EffectTimers {
  import opened Wrappers
  import opened Interp = Interpolation
  import Easing
  import Durations
  import opened Terminal

  datatype EffectTimer = EffectTimer(remaining: nat, total: nat, interpolation: Interpolation, reverse: bool)
  {
    /** What every timer built by this module keeps. */
    predicate Valid() { remaining <= total }

    predicate Done() { remaining == 0 }

    predicate Started() { total != remaining }

    /** The timer's full duration (`EffectTimer::duration`). */
    function Duration(): nat { total }

    predicate IsReversed() { reverse }
  }

  /** `EffectTimer::new`: a fresh, forward timer of `duration` milliseconds. */
  function New(duration: nat, interpolation: Interpolation): (t: EffectTimer)
    ensures t.Valid() && !t.Started() && !t.reverse
    ensures t.remaining == duration && t.total == duration && t.interpolation == interpolation
    ensures t.Done() <==> duration == 0
  {
    EffectTimer(duration, duration, interpolation, false)
  }

  /** `EffectTimer::from_ms`, and the `From<(u32, Interpolation)>` and
      `From<(Duration, Interpolation)>` conversions. */
  function FromMs(ms: nat, interpolation: Interpolation): (t: EffectTimer)
    ensures t == New(ms, interpolation)
  {
    New(ms, interpolation)
  }

  /** The `From<u32>` and `From<Duration>` conversions: a linear timer. */
  function FromDuration(ms: nat): (t: EffectTimer)
    ensures t == New(ms, DEFAULT)
  {
    New(ms, Linear)
  }

  /** `EffectTimer::reversed`. */
  function Reversed(t: EffectTimer): (r: EffectTimer)
    ensures r.reverse == !t.reverse
    ensures r.remaining == t.remaining && r.total == t.total && r.interpolation == t.interpolation
  {
    t.(reverse := !t.reverse)
  }

  lemma ReversedIsInvolution(t: EffectTimer)
    ensures Reversed(Reversed(t)) == t
    ensures Reversed(t) != t
  {
  }

  /** `EffectTimer::alpha`: 1 for an empty timer, otherwise the eased
      fraction of time elapsed (of time remaining, when reversed). */
  function Alpha(t: EffectTimer, ease: Easing.Curves): (a: real)
    ensures t.total == 0 ==> a == 1.0
    ensures t.total != 0 && !t.reverse ==>
      a == Interp.Alpha(t.interpolation, 1.0 - (t.remaining as real) / (t.total as real), ease)
    ensures t.total != 0 && t.reverse ==>
      a == Interp.Alpha(t.interpolation, (t.remaining as real) / (t.total as real), ease)
  {
    if t.total == 0 then 1.0
    else
      var inv := (t.remaining as real) / (t.total as real);
      Interp.Alpha(t.interpolation, if t.reverse then inv else 1.0 - inv, ease)
  }

  /** With the linear interpolation the alpha runs from 0 at the start to 1
      when done (the other way round when reversed), staying within [0, 1]. */
  lemma LinearAlphaRange(t: EffectTimer, ease: Easing.Curves)
    requires t.Valid() && t.interpolation == Linear && t.total != 0
    ensures 0.0 <= Alpha(t, ease) <= 1.0
    ensures !t.Started() ==> Alpha(t, ease) == (if t.reverse then 1.0 else 0.0)
    ensures t.Done() ==> Alpha(t, ease) == (if t.reverse then 0.0 else 1.0)
  {
    var inv := (t.remaining as real) / (t.total as real);
    assert 0.0 <= inv <= 1.0;
  }

  /** The result of processing a tick: the advanced timer and the part of
      the tick it could not absorb. */
  datatype Processed = Processed(timer: EffectTimer, overflow: Option<nat>)

  /** `EffectTimer::process`. */
  function Process(t: EffectTimer, d: nat): (r: Processed)
    ensures r.timer.total == t.total && r.timer.interpolation == t.interpolation
    ensures r.timer.reverse == t.reverse
    ensures r.overflow.None? <==> d <= t.remaining
    ensures r.overflow.None? ==> r.timer.remaining == t.remaining - d
    ensures r.overflow.Some? ==> r.timer.Done() && r.overflow.value == d - t.remaining > 0
  {
    if t.remaining >= d then Processed(t.(remaining := t.remaining - d), None)
    else Processed(t.(remaining := 0), Some(d - t.remaining))
  }

  /** Conservation: the tick is split exactly into time consumed and
      overflow, and the timer stays valid. */
  lemma ProcessConserves(t: EffectTimer, d: nat)
    requires t.Valid()
    ensures Process(t, d).timer.Valid()
    ensures Process(t, d).timer.remaining <= t.remaining
    ensures d == (t.remaining - Process(t, d).timer.remaining) + Process(t, d).overflow.GetOr(0)
  {
  }

  /** A zero tick changes nothing and reports no overflow, even when done. */
  lemma ProcessZero(t: EffectTimer)
    ensures Process(t, 0) == Processed(t, None)
  {
  }

  /** A done timer passes every non-zero tick through as overflow. */
  lemma ProcessDone(t: EffectTimer, d: nat)
    requires t.Done() && d > 0
    ensures Process(t, d) == Processed(t, Some(d))
  {
  }

  /** Two ticks in a row consume what one tick of their sum would. */
  lemma ProcessAdditive(t: EffectTimer, d1: nat, d2: nat)
    requires Process(t, d1).overflow.None?
    ensures Process(Process(t, d1).timer, d2) == Process(t, d1 + d2)
  {
  }

  /** `EffectTimer::reset`: rewind to the full duration. */
  function Reset(t: EffectTimer): (r: EffectTimer)
    ensures r.Valid() && !r.Started()
    ensures r.total == t.total && r.interpolation == t.interpolation && r.reverse == t.reverse
  {
    t.(remaining := t.total)
  }

  /** Resetting after any sequence of ticks gives back the fresh timer. */
  lemma ResetAfterProcess(t: EffectTimer, d: nat)
    ensures Reset(Process(t, d).timer) == Reset(t)
    ensures Reset(New(t.total, t.interpolation)) == New(t.total, t.interpolation)
  {
  }

  /** `timer * n`: a timer n times as long, keeping interpolation and
      direction. */
  function Scale(t: EffectTimer, n: nat): (r: EffectTimer)
    ensures r.total == t.total * n && r.remaining == t.remaining * n
    ensures r.interpolation == t.interpolation && r.reverse == t.reverse
    ensures t.Valid() ==> r.Valid()
  {
    assert t.Valid() ==> t.remaining * n <= t.total * n by {
      if t.Valid() { MulMonotone(t.remaining, t.total, n); }
    }
    t.(remaining := t.remaining * n, total := t.total * n)
  }

  /** For a timer whose duration fits a u32, `timer * n` multiplies that
      `Duration` by n: the u32 product panics exactly when the scaled total
      leaves the u32 range, and otherwise is the scaled total. */
  lemma ScaleIsDurationMul(t: EffectTimer, n: u32)
    requires t.total < U32_LIMIT
    ensures Durations.Mul(Durations.FromMillis(t.total), n)
         == if Scale(t, n).total < U32_LIMIT then Ok(Durations.FromMillis(Scale(t, n).total))
            else Err(Durations.Overflow)
  {
  }

  lemma MulMonotone(a: nat, b: nat, n: nat)
    requires a <= b
    ensures a * n <= b * n
  {
  }
}
