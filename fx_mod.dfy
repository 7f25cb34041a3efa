/** The effect constructors of the `fx` module: each builds one node of the
    effect tree. The "out" and "in" variants of sweep and slide are one
    painter run backwards, and the names the library reports follow from
    the direction and the reversal flag of the timer. */
module Fx {
  import opened Wrappers
  import opened Terminal
  import opened CellFilters
  import opened Directions
  import S = Shaders
  import T = EffectTimers
  import Interp = Interpolation

  const FADE_NEEDS_COLOR := "At least one of fg or bg must be provided"
  const HSL_NEEDS_CHANGE := "At least one of the foreground or background color must be changed"

  /** The private `fade`: a fade of the configured channels, its timer
      reversed for the `fade_from` forms; no channel at all panics. */
  function Fade(fg: Option<Color>, bg: Option<Color>, t: T.EffectTimer, reverse: bool): (r: Result<S.Shader, S.Fault>)
    ensures r.Err? <==> fg.None? && bg.None?
    ensures r.Err? ==> r.error == S.Panic(FADE_NEEDS_COLOR)
    ensures r.Ok? ==> r.value == S.Painter(S.Fade(fg, bg), if reverse then T.Reversed(t) else t, None, All)
    ensures r.Ok? && !t.reverse ==> S.Name(r.value) == (if reverse then "fade_from" else "fade_to")
  {
    if fg.None? && bg.None? then Err(S.Panic(FADE_NEEDS_COLOR))
    else Ok(S.Painter(S.Fade(fg, bg), if reverse then T.Reversed(t) else t, None, All))
  }

  /** `fade_to_fg`. */
  function FadeToFg(fg: Color, t: T.EffectTimer): (s: S.Shader)
    ensures s.Painter? && s.kind == S.Fade(Some(fg), None) && s.timer == t
  {
    S.Painter(S.Fade(Some(fg), None), t, None, All)
  }

  /** `fade_from_fg`: the same fade run backwards. */
  function FadeFromFg(fg: Color, t: T.EffectTimer): (s: S.Shader)
    ensures s == S.Reverse(FadeToFg(fg, t))
  {
    S.Painter(S.Fade(Some(fg), None), T.Reversed(t), None, All)
  }

  /** `fade_to`. */
  function FadeTo(fg: Color, bg: Color, t: T.EffectTimer): (s: S.Shader)
    ensures s.Painter? && s.kind == S.Fade(Some(fg), Some(bg)) && s.timer == t
  {
    S.Painter(S.Fade(Some(fg), Some(bg)), t, None, All)
  }

  /** `fade_from`: the same fade run backwards. */
  function FadeFrom(fg: Color, bg: Color, t: T.EffectTimer): (s: S.Shader)
    ensures s == S.Reverse(FadeTo(fg, bg, t))
  {
    S.Painter(S.Fade(Some(fg), Some(bg)), T.Reversed(t), None, All)
  }

  /** The four public fades are the private `fade` with one or two
      channels, forward or reversed. */
  lemma FadesAreFade(fg: Color, bg: Color, t: T.EffectTimer)
    ensures Fade(Some(fg), None, t, false) == Ok(FadeToFg(fg, t))
    ensures Fade(Some(fg), None, t, true) == Ok(FadeFromFg(fg, t))
    ensures Fade(Some(fg), Some(bg), t, false) == Ok(FadeTo(fg, bg, t))
    ensures Fade(Some(fg), Some(bg), t, true) == Ok(FadeFrom(fg, bg, t))
  {
  }

  /** The names the library's own tests check for fades: with a forward timer `fade_to` and
      `fade_from_fg` carry their own names, and reversing swaps them. */
  lemma FadeNames(fg: Color, bg: Color, t: T.EffectTimer)
    requires !t.reverse
    ensures S.Name(FadeTo(fg, bg, t)) == "fade_to" && S.Name(S.Reverse(FadeTo(fg, bg, t))) == "fade_from"
    ensures S.Name(FadeFromFg(fg, t)) == "fade_from" && S.Name(S.Reverse(FadeFromFg(fg, t))) == "fade_to"
  {
  }

  /** `hsl_shift`: at least one of the two changes must be given. */
  function HslShift(fgChange: Option<S.HslChange>, bgChange: Option<S.HslChange>, t: T.EffectTimer)
    : (r: Result<S.Shader, S.Fault>)
    ensures r.Err? <==> fgChange.None? && bgChange.None?
    ensures r.Err? ==> r.error == S.Panic(HSL_NEEDS_CHANGE)
    ensures r.Ok? ==> r.value.Painter? && r.value.kind == S.HslShift(fgChange, bgChange) && r.value.timer == t
  {
    if fgChange.None? && bgChange.None? then Err(S.Panic(HSL_NEEDS_CHANGE))
    else Ok(S.Painter(S.HslShift(fgChange, bgChange), t, None, All))
  }

  /** `hsl_shift_fg`: never panics. */
  function HslShiftFg(fgChange: S.HslChange, t: T.EffectTimer): (s: S.Shader)
    ensures HslShift(Some(fgChange), None, t) == Ok(s)
  {
    S.Painter(S.HslShift(Some(fgChange), None), t, None, All)
  }

  /** `sweep_in` (`SweepIn::new`): the timer runs backwards exactly for the
      directions against their axis; the filter is All. */
  function SweepIn(d: Direction, gradient: u16, randomness: u16, faded: Color, t: T.EffectTimer): (s: S.Shader)
    ensures s.Painter? && s.kind == S.Sweep(d, gradient, randomness, faded)
    ensures s.timer.reverse == (t.reverse != FlipsTimer(d))
    ensures s.timer.remaining == t.remaining && s.timer.total == t.total && s.timer.interpolation == t.interpolation
    ensures s.area.None? && s.filter == All
  {
    S.Painter(S.Sweep(d, gradient, randomness, faded), if FlipsTimer(d) then T.Reversed(t) else t, None, All)
  }

  /** `sweep_out`: the sweep in the opposite direction, run backwards. */
  function SweepOut(d: Direction, gradient: u16, randomness: u16, faded: Color, t: T.EffectTimer): (s: S.Shader)
    ensures s.Painter? && s.kind == S.Sweep(Flipped(d), gradient, randomness, faded)
    ensures s.timer.reverse == (t.reverse == FlipsTimer(Flipped(d)))
  {
    S.Reverse(SweepIn(Flipped(d), gradient, randomness, faded, t))
  }

  /** `slide_out`: the timer runs backwards exactly for RightToLeft and
      DownToUp; the filter defaults to All. */
  function SlideOut(d: Direction, gradient: u16, randomness: u16, behind: Color, t: T.EffectTimer): (s: S.Shader)
    ensures s.Painter? && s.kind == S.Slide(d, gradient, randomness, behind)
    ensures s.timer.reverse == (t.reverse != (d == RightToLeft || d == DownToUp))
    ensures s.timer.remaining == t.remaining && s.timer.total == t.total && s.timer.interpolation == t.interpolation
    ensures s.area.None? && s.filter == All
  {
    var timer := match d
      case LeftToRight => t
      case RightToLeft => T.Reversed(t)
      case UpToDown => t
      case DownToUp => T.Reversed(t);
    S.Painter(S.Slide(d, gradient, randomness, behind), timer, None, All)
  }

  /** `slide_in`: the slide in the opposite direction, run backwards. */
  function SlideIn(d: Direction, gradient: u16, randomness: u16, behind: Color, t: T.EffectTimer): (s: S.Shader)
    ensures s.Painter? && s.kind == S.Slide(Flipped(d), gradient, randomness, behind)
    ensures s.timer.reverse == (t.reverse == FlipsTimer(Flipped(d)))
  {
    S.Reverse(SlideOut(Flipped(d), gradient, randomness, behind, t))
  }

  /** The names the library's own tests check for sweeps and slides, for every direction: with a
      forward timer each constructor carries its own name, and reversing
      swaps "in" and "out". */
  lemma SweepSlideNames(d: Direction, g: u16, r: u16, c: Color, t: T.EffectTimer)
    requires !t.reverse
    ensures S.Name(SweepIn(d, g, r, c, t)) == "sweep_in" && S.Name(S.Reverse(SweepIn(d, g, r, c, t))) == "sweep_out"
    ensures S.Name(SweepOut(d, g, r, c, t)) == "sweep_out" && S.Name(S.Reverse(SweepOut(d, g, r, c, t))) == "sweep_in"
    ensures S.Name(SlideOut(d, g, r, c, t)) == "slide_out" && S.Name(S.Reverse(SlideOut(d, g, r, c, t))) == "slide_in"
    ensures S.Name(SlideIn(d, g, r, c, t)) == "slide_in" && S.Name(S.Reverse(SlideIn(d, g, r, c, t))) == "slide_out"
  {
    FlippedInvolution(d);
  }

  /** With a reversed timer the names come out the other way round: the
      name follows the run direction, not the constructor. */
  lemma ReversedTimerSwapsNames(d: Direction, g: u16, r: u16, c: Color, t: T.EffectTimer)
    requires t.reverse
    ensures S.Name(SweepIn(d, g, r, c, t)) == "sweep_out"
    ensures S.Name(SlideOut(d, g, r, c, t)) == "slide_in"
  {
  }

  /** `sleep`. */
  function Sleep(t: T.EffectTimer): (s: S.Shader)
    ensures s.Sleep? && s.timer == t && (S.Done(s) <==> t.Done())
  {
    S.Sleep(t)
  }

  /** `sequence`: the cursor starts at the first effect. */
  function Sequence(fxs: seq<S.Shader>): (s: S.Shader)
    ensures s.Sequential? && s.fxs == fxs && s.current == 0
    ensures S.Done(s) <==> |fxs| == 0
  {
    S.Sequential(fxs, 0)
  }

  /** `parallel`. */
  function Parallel(fxs: seq<S.Shader>): (s: S.Shader)
    ensures s.Parallel? && s.fxs == fxs
    ensures S.Done(s) <==> forall i | 0 <= i < |fxs| :: S.Done(fxs[i])
  {
    S.Parallel(fxs)
  }

  /** `delay`: a sleep followed by the effect. */
  function Delay(t: T.EffectTimer, e: S.Shader): (s: S.Shader)
    ensures s == Sequence([Sleep(t), e])
  {
    S.Sequential([S.Sleep(t), e], 0)
  }

  /** A delay holds its effect back: a tick no longer than the sleep left
      is absorbed by the sleep, and the effect is neither processed nor
      painted. */
  lemma DelayHoldsBack(t: T.EffectTimer, e: S.Shader, d: nat, area: Rect, surface: S.Surface, env: S.Env, fuel: nat)
    requires fuel >= 3 && d <= t.remaining
    ensures var r := S.Process(Delay(t, e), d, area, surface, env, fuel);
            && r.Ok? && r.value.overflow.None? && r.value.paints == []
            && r.value.node == S.Sequential([S.Sleep(T.Process(t, d).timer), e], if d == t.remaining then 1 else 0)
  {
    var p := T.Process(t, d);
    var st0 := S.SeqState([S.Sleep(t), e], 0, Some(d), []);
    var st1 := S.SeqState([S.Sleep(p.timer), e], if d == t.remaining then 1 else 0, None, []);
    assert S.Process(S.Sleep(t), d, area, surface, env, fuel - 1) == Ok(S.Tick(S.Sleep(p.timer), None, []));
    assert S.Done(S.Sleep(p.timer)) <==> d == t.remaining;
    assert [S.Sleep(t), e][0 := S.Sleep(p.timer)] == [S.Sleep(p.timer), e];
    assert st0.paints + [] == [];
    assert S.SeqLoop(st0, area, surface, env, fuel - 1) == S.SeqLoop(st1, area, surface, env, fuel - 2);
    assert S.Process(Delay(t, e), d, area, surface, env, fuel)
        == S.Step(Delay(t, e), d, area, surface, env, fuel - 1);
  }

  /** `repeat`: the mode given is also the mode a reset restores. */
  function Repeat(e: S.Shader, mode: S.RepeatMode): (s: S.Shader)
    ensures s.Repeat? && s.fx == e && s.mode == mode && s.originalMode == mode
  {
    S.Repeat(e, mode, mode)
  }

  /** `repeating`: repeat forever, which is never done. */
  function Repeating(e: S.Shader): (s: S.Shader)
    ensures s == Repeat(e, S.Forever) && !S.Done(s)
  {
    S.Repeat(e, S.Forever, S.Forever)
  }

  /** `ping_pong`: starts forward, with the default filter. */
  function PingPong(e: S.Shader): (s: S.Shader)
    ensures s.PingPong? && s.fx == e && !s.reversing && s.strategy == All && !S.Done(s)
  {
    S.PingPong(e, false, All)
  }

  /** `prolong_start`. */
  function ProlongStart(t: T.EffectTimer, e: S.Shader): (s: S.Shader)
    ensures s.Prolong? && s.inner == e && s.pad == t && S.Name(s) == "prolong_start"
  {
    S.Prolong(e, t, S.Start)
  }

  /** `prolong_end`. */
  function ProlongEnd(t: T.EffectTimer, e: S.Shader): (s: S.Shader)
    ensures s.Prolong? && s.inner == e && s.pad == t && S.Name(s) == "prolong_end"
  {
    S.Prolong(e, t, S.End)
  }

  /** `consume_tick`: not yet done. */
  function ConsumeTick(): (s: S.Shader)
    ensures s.ConsumeTick? && !S.Done(s)
  {
    S.ConsumeTick(false)
  }

  /** `never_complete`. */
  function NeverComplete(e: S.Shader): (s: S.Shader)
    ensures s.NeverComplete? && s.fx == e && !S.Done(s)
  {
    S.NeverComplete(e)
  }

  /** `with_duration` (`TemporaryEffect::new`): a linear cap timer of the
      given length; done once the cap runs out or the effect is done. */
  function WithDuration(ms: nat, e: S.Shader): (s: S.Shader)
    ensures s.Temporary? && s.fx == e && s.cap == T.New(ms, Interp.Linear) && S.Name(s) == "with_duration"
    ensures S.Done(s) <==> ms == 0 || S.Done(e)
  {
    S.Temporary(e, T.New(ms, Interp.Linear))
  }

  /** `timed_never_complete`: a never-completing effect capped in time,
      so it is done exactly when the cap runs out. */
  function TimedNeverComplete(ms: nat, e: S.Shader): (s: S.Shader)
    ensures s == WithDuration(ms, NeverComplete(e))
    ensures S.Done(s) <==> ms == 0
  {
    S.Temporary(S.NeverComplete(e), T.New(ms, Interp.Linear))
  }

  /** `translate` (`Translate::new`): no area and no origin yet. */
  function Translate(e: Option<S.Shader>, shift: (i16, i16), t: T.EffectTimer): (s: S.Shader)
    ensures s.Translate? && s.child == e && s.shift == shift && s.lifetime == t
    ensures s.area.None? && s.origin.None?
  {
    S.Translate(e, None, None, shift, t)
  }

  /** `translate_buf`. */
  function TranslateBuf(aux: S.BufferRef, shift: Offset, t: T.EffectTimer): (s: S.Shader)
    ensures s.TranslateBuffer? && s.aux == aux && s.shiftBy == shift && s.timer == t
    ensures S.AreaOf(s).None?
  {
    S.TranslateBuffer(aux, shift, t)
  }

  /** `resize_area` (`ResizeArea::new`): no target area recorded yet. */
  function ResizeArea(e: Option<S.Shader>, initial: Size, t: T.EffectTimer): (s: S.Shader)
    ensures s.Resize? && s.child == e && s.initial == initial && s.timer == t
    ensures s.area.None? && s.origin.None?
  {
    S.Resize(e, None, None, initial, t)
  }

  /** `offscreen_buffer`: its area is always known, the target's if the
      effect has none. */
  function OffscreenBuffer(e: S.Shader, target: S.BufferRef): (s: S.Shader)
    ensures s.Offscreen? && s.fx == e && s.renderTarget == target
    ensures S.AreaOf(s) == Some(S.AreaOf(e).GetOr(target.area))
  {
    S.Offscreen(e, target)
  }

  /** `effect_fn`: the derived builder keeps no snapshot of the initial
      state, so such an effect panics on reset. */
  function EffectFn(state: int, t: T.EffectTimer, code: nat): (s: S.Shader)
    ensures s.ShaderFn? && s.name == "shader_fn" && s.userState == state && s.code == code && s.timer == t
    ensures s.originalState.None? && s.fnFilter.None? && s.area.None?
    ensures S.Reset(s).Err?
  {
    S.ShaderFn("shader_fn", code, state, None, t, None, None)
  }

  /** `effect_fn_buf`: as `effect_fn`, under its own name. */
  function EffectFnBuf(state: int, t: T.EffectTimer, code: nat): (s: S.Shader)
    ensures s.ShaderFn? && s.name == "shader_fn_buf" && s.userState == state && s.code == code
    ensures s.originalState.None? && S.Reset(s).Err?
  {
    S.ShaderFn("shader_fn_buf", code, state, None, t, None, None)
  }

  /** `ShaderFn::with_iterator` and `with_buffer`: the initial state is
      snapshotted, the name defaults to "shader_fn". */
  function WithSnapshot(name: Option<string>, state: int, code: nat, t: T.EffectTimer,
                        filter: Option<CellFilter>, area: Option<Rect>): (s: S.Shader)
    ensures s.ShaderFn? && s.name == name.GetOr("shader_fn") && s.userState == state
    ensures s.originalState == Some(state) && s.timer == t && s.fnFilter == filter && s.area == area
  {
    S.ShaderFn(name.GetOr("shader_fn"), code, state, Some(state), t, filter, area)
  }

  /** A snapshotted shader function can be reset whatever its state has
      become since: the state returns to the snapshot and the timer to its
      full length. */
  lemma SnapshotResets(name: Option<string>, state: int, code: nat, t: T.EffectTimer,
                       filter: Option<CellFilter>, area: Option<Rect>, later: int)
    ensures var s0 := WithSnapshot(name, state, code, t, filter, area);
            var s := S.ShaderFn(s0.name, s0.code, later, s0.originalState, s0.timer, s0.fnFilter, s0.area);
            && S.Reset(s).Ok?
            && S.Reset(s).value.userState == state
            && S.Reset(s).value.timer == T.Reset(t)
  {
  }
}
