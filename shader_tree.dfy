/** The effect tree. Every shader of the library is one node of a closed
    datatype; containers and wrappers hold their children as values (an
    `Effect` box is a node). Processing a tick is a function from a node to
    its advanced node, the part of the tick it did not use (its overflow),
    and the list of paint operations it performed, in order. Cell painting
    itself is modelled by the painter modules; here a paint is a record of
    what was painted where. A panic of the library is an `Err`. */
module Shaders {
  import opened Wrappers
  import opened Terminal
  import T = EffectTimers
  import Interp = Interpolation
  import Easing
  import opened CellFilters
  import opened Directions
  import RectExt
  import Glitches
  import BufferRenderer
  import Painters

  /** Why a tick or a reset did not complete: a panic of the library, or
      the model's step budget ran out (the library would keep looping). */
  datatype Fault = Panic(message: string) | OutOfFuel

  const UNWRAP_NONE: string := "called `Option::unwrap()` on a `None` value"
  const MUST_IMPLEMENT_RESET: string := "Shader must implement reset()"
  const NOT_IMPLEMENTED: string := "not yet implemented"
  const SUBTRACT_OVERFLOW: string := "attempt to subtract with overflow"
  const ADD_OVERFLOW: string := "attempt to add with overflow"
  const OUTSIDE_BUFFER: string := "position outside the buffer"

  /** A shared buffer (`RefCount<Buffer>`): its identity and its area. */
  datatype BufferRef = BufferRef(id: nat, area: Rect)

  /** The buffer a tick paints on: the screen buffer passed in by the
      caller, or the render target of an offscreen effect. */
  datatype Surface = Screen | Target(buffer: BufferRef)

  datatype RepeatMode = Forever | Times(n: u32) | ForDuration(ms: nat)

  datatype ProlongPosition = Start | End

  /** An HSL shift (hue, saturation, lightness); its colour math is not
      part of this model. */
  datatype HslChange = HslChange(hue: real, saturation: real, lightness: real)

  /** The painting leaves and their configuration. */
  datatype PainterKind =
    | Fade(fg: Option<Color>, bg: Option<Color>)
    | HslShift(fgShift: Option<HslChange>, bgShift: Option<HslChange>)
    | Sweep(sweepDirection: Direction, gradient: u16, randomness: u16, faded: Color)
    | Slide(slideDirection: Direction, slideGradient: u16, slideRandomness: u16, behind: Color)

  datatype Shader =
    | Painter(kind: PainterKind, timer: T.EffectTimer, area: Option<Rect>, filter: CellFilter)
    | Sleep(timer: T.EffectTimer)
    | ConsumeTick(consumed: bool)
    | Glitch(glitches: Glitches.GlitchState, selection: CellFilter, area: Option<Rect>, ratio: real,
             timing: Glitches.Timing)
    | ShaderFn(name: string, code: nat, userState: int, originalState: Option<int>,
               timer: T.EffectTimer, fnFilter: Option<CellFilter>, area: Option<Rect>)
    | TranslateBuffer(aux: BufferRef, shiftBy: Offset, timer: T.EffectTimer)
    | Offscreen(fx: Shader, renderTarget: BufferRef)
    | Sequential(fxs: seq<Shader>, current: nat)
    | Parallel(fxs: seq<Shader>)
    | Repeat(fx: Shader, mode: RepeatMode, originalMode: RepeatMode)
    | PingPong(fx: Shader, reversing: bool, strategy: CellFilter)
    | Prolong(inner: Shader, pad: T.EffectTimer, position: ProlongPosition)
    | NeverComplete(fx: Shader)
    | Temporary(fx: Shader, cap: T.EffectTimer)
    | Resize(child: Option<Shader>, area: Option<Rect>, origin: Option<Rect>, initial: Size, timer: T.EffectTimer)
    | Translate(child: Option<Shader>, area: Option<Rect>, origin: Option<Rect>, shift: (i16, i16), lifetime: T.EffectTimer)

  /** What a `ShaderFn` hands to its user function. */
  datatype Context = Context(lastTick: nat, timer: T.EffectTimer, area: Rect, filter: Option<CellFilter>)

  /** What the tree cannot compute itself: the easing curves, the screen
      buffer's area, the user functions of `ShaderFn` (by code number, from
      their state and context to their new state), the glitch population
      target of an area at a ratio (an f32 product, rounded), and one
      glitch frame on the buffer (the state it leaves, or the panic's
      message). `GlitchFrameFollows` says what a glitch frame must do. */
  datatype Env = Env(
    ease: Easing.Curves,
    screen: Rect,
    code: (nat, int, Context) -> int,
    population: (Rect, real) -> nat,
    glitch: (Glitches.GlitchState, Glitches.Timing, nat, CellFilter, nat, Rect, Surface)
            -> Result<Glitches.GlitchState, string>)

  /** A glitch frame of the environment follows `Glitches.ProcessGlitch`
      wherever the buffer is not needed: it panics with the `gen_range`
      message when topping up the population draws from an empty range,
      and a frame that completes leaves the scheduled population with the
      expired glitches removed. The frame takes the population's state,
      its timing, its target, its selection, the tick, the area and the
      surface. */
  ghost predicate GlitchFrameFollows(env: Env) {
    forall g, timing, target, f, d, area, surface ::
      GlitchFrameFollowsAt(env.glitch(g, timing, target, f, d, area, surface),
                           Glitches.Scheduled(g, d, area, target, SurfaceArea(surface, env).Area(), timing))
  }

  /** One frame's result against the population it schedules. */
  predicate GlitchFrameFollowsAt(r: Result<Glitches.GlitchState, string>, sched: Option<Glitches.GlitchState>) {
    && (sched.None? ==> r == Err(Glitches.EMPTY_RANGE))
    && (r.Ok? ==> sched.Some? && r.value == Glitches.Survivors(sched.value))
  }

  /** One paint operation of a tick. */
  datatype Paint =
    | Painted(painter: PainterKind, alpha: real, at: Rect, on: Surface)
    | Blitted(source: BufferRef, offset: (int, int), on: Surface)
    | Invoked(fnCode: nat, context: Context, on: Surface)
    | Glitched(at: Rect, on: Surface)

  /** The result of a tick: the advanced node, its overflow and its paints. */
  datatype Tick = Tick(node: Shader, overflow: Option<nat>, paints: seq<Paint>)

  function SurfaceArea(surface: Surface, env: Env): Rect {
    match surface
    case Screen => env.screen
    case Target(b) => b.area
  }

  // ------------------------------------------------------------ accessors

  /** `Shader::area`. */
  function AreaOf(s: Shader): Option<Rect> {
    match s
    case Painter(_, _, a, _) => a
    case Sleep(_) => None
    case ConsumeTick(_) => None
    case Glitch(_, _, a, _, _) => a
    case ShaderFn(_, _, _, _, _, _, a) => a
    case TranslateBuffer(_, _, _) => None
    case Offscreen(fx, target) => Some(AreaOf(fx).GetOr(target.area))
    case Sequential(_, _) => None
    case Parallel(_) => None
    case Repeat(fx, _, _) => AreaOf(fx)
    case PingPong(fx, _, _) => AreaOf(fx)
    case Prolong(inner, _, _) => AreaOf(inner)
    case NeverComplete(fx) => AreaOf(fx)
    case Temporary(fx, _) => AreaOf(fx)
    case Resize(_, a, _, _, _) => a
    case Translate(child, a, _, _, _) =>
      if child.Some? && AreaOf(child.value).Some? then AreaOf(child.value) else a
  }

  /** `Shader::done`. */
  predicate Done(s: Shader) {
    match s
    case Painter(_, t, _, _) => t.Done()
    case Sleep(t) => t.Done()
    case ConsumeTick(consumed) => consumed
    case Glitch(_, _, _, _, _) => false
    case ShaderFn(_, _, _, _, t, _, _) => t.Done()
    case TranslateBuffer(_, _, t) => t.Done()
    case Offscreen(fx, _) => Done(fx)
    case Sequential(fxs, current) => current >= |fxs|
    case Parallel(fxs) => forall i | 0 <= i < |fxs| :: Done(fxs[i])
    case Repeat(_, mode, _) => mode == Times(0) || mode == ForDuration(0)
    case PingPong(fx, reversing, _) => reversing && Done(fx)
    case Prolong(inner, pad, _) => pad.Done() && Done(inner)
    case NeverComplete(_) => false
    case Temporary(fx, cap) => cap.Done() || Done(fx)
    case Resize(child, _, _, _, t) => t.Done() && (child.None? || Done(child.value))
    case Translate(_, _, _, _, lifetime) => lifetime.Done()
  }

  /** `Shader::running`. */
  predicate Running(s: Shader) {
    !Done(s)
  }

  /** `Shader::name`. Sleep, ConsumeTick, Glitch and Translate carry the
      names of their constructors. */
  function Name(s: Shader): string {
    match s
    case Painter(kind, t, _, _) =>
      (match kind
       case Fade(_, _) => if t.IsReversed() then "fade_from" else "fade_to"
       case HslShift(_, _) => "hsl_shift"
       case Sweep(d, _, _, _) => if t.IsReversed() != FlipsTimer(d) then "sweep_out" else "sweep_in"
       case Slide(d, _, _, _) => if t.IsReversed() != FlipsTimer(d) then "slide_in" else "slide_out")
    case Sleep(_) => "sleep"
    case ConsumeTick(_) => "consume_tick"
    case Glitch(_, _, _, _, _) => "glitch"
    case ShaderFn(name, _, _, _, _, _, _) => name
    case TranslateBuffer(_, _, _) => "translate_by_buf"
    case Offscreen(_, _) => "offscreen_buffer"
    case Sequential(_, _) => "sequential"
    case Parallel(_) => "parallel"
    case Repeat(_, _, _) => "repeat"
    case PingPong(_, _, _) => "ping_pong"
    case Prolong(_, _, position) => if position == Start then "prolong_start" else "prolong_end"
    case NeverComplete(_) => "never_complete"
    case Temporary(_, _) => "with_duration"
    case Resize(_, _, _, _, _) => "resize_area"
    case Translate(_, _, _, _, _) => "translate"
  }

  /** `Shader::cell_selection`; Translate's is `todo!()`. */
  function CellSelection(s: Shader): Result<Option<CellFilter>, Fault> {
    match s
    case Painter(_, _, _, f) => Ok(Some(f))
    case Sleep(_) => Ok(None)
    case ConsumeTick(_) => Ok(None)
    case Glitch(_, f, _, _, _) => Ok(Some(f))
    case ShaderFn(_, _, _, _, _, f, _) => Ok(f)
    case TranslateBuffer(_, _, _) => Ok(None)
    case Offscreen(_, _) => Ok(None)
    case Sequential(_, _) => Ok(None)
    case Parallel(_) => Ok(None)
    case Repeat(fx, _, _) => CellSelection(fx)
    case PingPong(_, _, strategy) => Ok(Some(strategy))
    case Prolong(inner, _, _) => CellSelection(inner)
    case NeverComplete(fx) => CellSelection(fx)
    case Temporary(fx, _) => CellSelection(fx)
    case Resize(child, _, _, _, _) => if child.None? then Ok(None) else CellSelection(child.value)
    case Translate(_, _, _, _, _) => Err(Panic(NOT_IMPLEMENTED))
  }

  /** The summed durations of the timers present. */
  function TotalDuration(ts: seq<Option<T.EffectTimer>>): (n: nat)
    ensures n == 0 <== forall i | 0 <= i < |ts| :: ts[i].None?
  {
    if |ts| == 0 then 0
    else TotalDuration(ts[..|ts| - 1]) + (if ts[|ts| - 1].Some? then ts[|ts| - 1].value.total else 0)
  }

  /** The longest duration among the timers present, None when none is. */
  function LongestDuration(ts: seq<Option<T.EffectTimer>>): (r: Option<nat>)
    ensures r.None? <==> forall i | 0 <= i < |ts| :: ts[i].None?
    ensures r.Some? ==> forall i | 0 <= i < |ts| && ts[i].Some? :: ts[i].value.total <= r.value
    ensures r.Some? ==> exists i | 0 <= i < |ts| :: ts[i].Some? && ts[i].value.total == r.value
  {
    if |ts| == 0 then None
    else
      var rest := LongestDuration(ts[..|ts| - 1]);
      var last := ts[|ts| - 1];
      if last.None? then rest
      else if rest.Some? && rest.value >= last.value.total then rest
      else Some(last.value.total)
  }

  /** `Shader::timer`, the diagnostic timer. */
  function TimerOf(s: Shader): Option<T.EffectTimer> {
    match s
    case Painter(_, t, _, _) => Some(t)
    case Sleep(_) => None
    case ConsumeTick(_) => None
    case Glitch(_, _, _, _, _) => None
    case ShaderFn(_, _, _, _, _, _, _) => None
    case TranslateBuffer(_, _, t) => Some(t)
    case Offscreen(_, _) => None
    case Sequential(fxs, _) =>
      var total := TotalDuration(seq(|fxs|, i requires 0 <= i < |fxs| => TimerOf(fxs[i])));
      if total == 0 then None else Some(T.New(total, Interp.Linear))
    case Parallel(fxs) =>
      var longest := LongestDuration(seq(|fxs|, i requires 0 <= i < |fxs| => TimerOf(fxs[i])));
      if longest.None? then None else Some(T.New(longest.value, Interp.Linear))
    case Repeat(fx, mode, _) =>
      (match mode
       case Forever => TimerOf(fx)
       case Times(n) => if TimerOf(fx).None? then None else Some(T.Scale(TimerOf(fx).value, n))
       case ForDuration(ms) => Some(T.FromDuration(ms)))
    case PingPong(fx, _, _) => if TimerOf(fx).None? then None else Some(T.Scale(TimerOf(fx).value, 2))
    case Prolong(inner, pad, _) =>
      Some(T.New(pad.total + (if TimerOf(inner).None? then 0 else TimerOf(inner).value.total), Interp.Linear))
    case NeverComplete(_) => None
    case Temporary(_, cap) => Some(cap)
    case Resize(_, _, _, _, t) => Some(t)
    case Translate(_, _, _, _, _) => None
  }

  // ------------------------------------------------------------ mutators

  /** `Shader::reverse`: toggles the timer reached through `timer_mut`, or
      forwards to the children where the shader overrides it. */
  function Reverse(s: Shader): Shader {
    match s
    case Painter(kind, t, a, f) => Painter(kind, T.Reversed(t), a, f)
    case Sleep(t) => Sleep(T.Reversed(t))
    case ConsumeTick(_) => s
    case Glitch(_, _, _, _, _) => s
    case ShaderFn(_, _, _, _, _, _, _) => s
    case TranslateBuffer(aux, shiftBy, t) => TranslateBuffer(aux, shiftBy, T.Reversed(t))
    case Offscreen(_, _) => s
    case Sequential(fxs, current) =>
      Sequential(seq(|fxs|, i requires 0 <= i < |fxs| => Reverse(fxs[i])), current)
    case Parallel(fxs) => Parallel(seq(|fxs|, i requires 0 <= i < |fxs| => Reverse(fxs[i])))
    case Repeat(_, _, _) => s
    case PingPong(fx, reversing, strategy) => PingPong(Reverse(fx), reversing, strategy)
    case Prolong(_, _, _) => s
    case NeverComplete(fx) => NeverComplete(Reverse(fx))
    case Temporary(fx, cap) => Temporary(fx, T.Reversed(cap))
    case Resize(child, a, origin, initial, t) => Resize(child, a, origin, initial, T.Reversed(t))
    case Translate(child, a, origin, shift, lifetime) => Translate(child, a, origin, shift, T.Reversed(lifetime))
  }

  /** `Shader::set_area`. */
  function SetArea(s: Shader, area: Rect): Shader {
    match s
    case Painter(kind, t, _, f) => Painter(kind, t, Some(area), f)
    case Sleep(_) => s
    case ConsumeTick(_) => s
    case Glitch(g, f, _, ratio, timing) => Glitch(g, f, Some(area), ratio, timing)
    case ShaderFn(name, code, st, original, t, f, _) => ShaderFn(name, code, st, original, t, f, Some(area))
    case TranslateBuffer(_, _, _) => s
    case Offscreen(fx, target) => Offscreen(SetArea(fx, area), target)
    case Sequential(fxs, current) =>
      Sequential(seq(|fxs|, i requires 0 <= i < |fxs| => SetArea(fxs[i], area)), current)
    case Parallel(fxs) => Parallel(seq(|fxs|, i requires 0 <= i < |fxs| => SetArea(fxs[i], area)))
    case Repeat(fx, mode, original) => Repeat(SetArea(fx, area), mode, original)
    case PingPong(fx, reversing, strategy) => PingPong(SetArea(fx, area), reversing, strategy)
    case Prolong(inner, pad, position) => Prolong(SetArea(inner, area), pad, position)
    case NeverComplete(fx) => NeverComplete(SetArea(fx, area))
    case Temporary(fx, cap) => Temporary(SetArea(fx, area), cap)
    case Resize(child, _, origin, initial, t) =>
      Resize(if child.None? then None else Some(SetArea(child.value, area)), Some(area), origin, initial, t)
    case Translate(child, _, origin, shift, lifetime) =>
      Translate(if child.None? then None else Some(SetArea(child.value, area)), Some(area), origin, shift, lifetime)
  }

  /** `Shader::set_cell_selection`. */
  function SetCellSelection(s: Shader, f: CellFilter): Shader {
    match s
    case Painter(kind, t, a, _) => Painter(kind, t, a, f)
    case Sleep(_) => s
    case ConsumeTick(_) => s
    case Glitch(g, _, a, ratio, timing) => Glitch(g, f, a, ratio, timing)
    case ShaderFn(name, code, st, original, t, _, a) => ShaderFn(name, code, st, original, t, Some(f), a)
    case TranslateBuffer(_, _, _) => s
    case Offscreen(fx, target) => Offscreen(SetCellSelection(fx, f), target)
    case Sequential(fxs, current) =>
      Sequential(seq(|fxs|, i requires 0 <= i < |fxs| => SetCellSelection(fxs[i], f)), current)
    case Parallel(fxs) => Parallel(seq(|fxs|, i requires 0 <= i < |fxs| => SetCellSelection(fxs[i], f)))
    case Repeat(fx, mode, original) => Repeat(SetCellSelection(fx, f), mode, original)
    case PingPong(fx, reversing, _) => PingPong(fx, reversing, f)
    case Prolong(inner, pad, position) => Prolong(SetCellSelection(inner, f), pad, position)
    case NeverComplete(fx) => NeverComplete(SetCellSelection(fx, f))
    case Temporary(fx, cap) => Temporary(SetCellSelection(fx, f), cap)
    case Resize(child, a, origin, initial, t) =>
      Resize(if child.None? then None else Some(SetCellSelection(child.value, f)), a, origin, initial, t)
    case Translate(child, a, origin, shift, lifetime) =>
      Translate(if child.None? then None else Some(SetCellSelection(child.value, f)), a, origin, shift, lifetime)
  }

  /** All results Ok: their values; otherwise the first error. */
  function AllOk<V>(rs: seq<Result<V, Fault>>): (r: Result<seq<V>, Fault>)
    ensures r.Ok? <==> forall i | 0 <= i < |rs| :: rs[i].Ok?
    ensures r.Ok? ==> |r.value| == |rs| && forall i | 0 <= i < |rs| :: rs[i] == Ok(r.value[i])
  {
    if |rs| == 0 then Ok([])
    else if rs[0].Err? then Err(rs[0].error)
    else
      var rest :- AllOk(rs[1..]);
      Ok([rs[0].value] + rest)
  }

  /** `Shader::reset`: the trait default rewinds the timer reached through
      `timer_mut` and panics without one. */
  function Reset(s: Shader): Result<Shader, Fault> {
    match s
    case Painter(kind, t, a, f) => Ok(Painter(kind, T.Reset(t), a, f))
    case Sleep(t) => Ok(Sleep(T.Reset(t)))
    case ConsumeTick(_) => Ok(ConsumeTick(false))
    case Glitch(g, f, a, ratio, timing) => Ok(Glitch(g.(cells := []), f, a, ratio, timing))
    case ShaderFn(name, code, _, original, t, f, a) =>
      if original.None? then Err(Panic(UNWRAP_NONE))
      else Ok(ShaderFn(name, code, original.value, original, T.Reset(t), f, a))
    case TranslateBuffer(aux, shiftBy, t) => Ok(TranslateBuffer(aux, shiftBy, T.Reset(t)))
    case Offscreen(_, _) => Err(Panic(MUST_IMPLEMENT_RESET))
    case Sequential(fxs, _) =>
      var children :- AllOk(seq(|fxs|, i requires 0 <= i < |fxs| => Reset(fxs[i])));
      Ok(Sequential(children, 0))
    case Parallel(fxs) =>
      var children :- AllOk(seq(|fxs|, i requires 0 <= i < |fxs| => Reset(fxs[i])));
      Ok(Parallel(children))
    case Repeat(fx, _, original) =>
      var fx' :- Reset(fx);
      Ok(Repeat(fx', original, original))
    case PingPong(fx, _, strategy) => Ok(PingPong(fx, false, strategy))
    case Prolong(inner, pad, position) =>
      var inner' :- Reset(inner);
      Ok(Prolong(inner', T.Reset(pad), position))
    case NeverComplete(fx) =>
      var fx' :- Reset(fx);
      Ok(NeverComplete(fx'))
    case Temporary(fx, cap) =>
      var fx' :- Reset(fx);
      Ok(Temporary(fx', T.Reset(cap)))
    case Resize(child, a, origin, initial, t) =>
      if child.None? then Ok(Resize(None, a, origin, initial, T.Reset(t)))
      else
        var fx' :- Reset(child.value);
        Ok(Resize(Some(fx'), a, origin, initial, T.Reset(t)))
    case Translate(_, _, _, _, _) => Err(Panic(NOT_IMPLEMENTED))
  }

  // ------------------------------------------------------------ processing

  /** `Effect::process`: the shader's own area wins over the caller's. One
      unit of fuel is spent per call. */
  function Process(s: Shader, d: nat, area: Rect, surface: Surface, env: Env, fuel: nat): (r: Result<Tick, Fault>)
    ensures r.Ok? && r.value.overflow.Some? ==> r.value.overflow.value <= d
    decreases fuel, 0, 0
  {
    if fuel == 0 then Err(OutOfFuel)
    else Step(s, d, AreaOf(s).GetOr(area), surface, env, fuel - 1)
  }

  /** The advanced timer, its overflow, and the post-tick alpha: the
      trait's default `process`. */
  function TimedLeaf(t: T.EffectTimer, d: nat, env: Env): (r: (T.Processed, real))
    ensures r.0 == T.Process(t, d) && r.1 == T.Alpha(r.0.timer, env.ease)
  {
    var p := T.Process(t, d);
    (p, T.Alpha(p.timer, env.ease))
  }

  /** `Shader::process` of each kind of node, at the area already chosen. */
  function Step(s: Shader, d: nat, area: Rect, surface: Surface, env: Env, fuel: nat): (r: Result<Tick, Fault>)
    ensures r.Ok? && r.value.overflow.Some? ==> r.value.overflow.value <= d
    decreases fuel, 2, 0
  {
    match s
    case Painter(kind, t, a, f) =>
      var (p, alpha) := TimedLeaf(t, d, env);
      if !Painters.Paintable(SurfaceArea(surface, env), area) then
        Err(Panic(if kind.Sweep? || kind.Slide? then UNWRAP_NONE else OUTSIDE_BUFFER))
      else Ok(Tick(Painter(kind, p.timer, a, f), p.overflow, [Painted(kind, alpha, area, surface)]))
    case Sleep(t) =>
      var p := T.Process(t, d);
      Ok(Tick(Sleep(p.timer), p.overflow, []))
    case ConsumeTick(_) => Ok(Tick(ConsumeTick(true), None, []))
    case Glitch(g, f, a, ratio, timing) =>
      var g' := env.glitch(g, timing, env.population(area, ratio), f, d, area, surface);
      if g'.Err? then Err(Panic(g'.error))
      else Ok(Tick(Glitch(g'.value, f, a, ratio, timing), None, [Glitched(area, surface)]))
    case ShaderFn(name, code, st, original, t, f, a) =>
      var p := T.Process(t, d);
      var ctx := Context(d, p.timer, area, f);
      Ok(Tick(ShaderFn(name, code, env.code(code, st, ctx), original, p.timer, f, a), p.overflow,
              [Invoked(code, ctx, surface)]))
    case TranslateBuffer(aux, shiftBy, t) =>
      var (p, alpha) := TimedLeaf(t, d, env);
      var offset := Interp.LerpOffset(Offset(0, 0), shiftBy, alpha);
      if !(BufferRenderer.AxisFits(offset.0, aux.area.width) && BufferRenderer.AxisFits(offset.1, aux.area.height)) then
        Err(Panic(SUBTRACT_OVERFLOW))
      else Ok(Tick(TranslateBuffer(aux, shiftBy, p.timer), p.overflow, [Blitted(aux, offset, surface)]))
    case Offscreen(fx, target) =>
      var r :- Process(fx, d, target.area, Target(target), env, fuel);
      Ok(Tick(Offscreen(r.node, target), None, r.paints))
    case Sequential(fxs, current) =>
      var st :- SeqLoop(SeqState(fxs, current, Some(d), []), area, surface, env, fuel);
      Ok(Tick(Sequential(st.fxs, st.current), st.remaining, st.paints))
    case Parallel(fxs) =>
      var st :- ParLoop(fxs, ParState([], Some(d), []), d, area, surface, env, fuel);
      Ok(Tick(Parallel(st.fxs), st.remaining, st.paints))
    case Repeat(fx, mode, original) => StepRepeat(fx, mode, original, d, area, surface, env, fuel)
    case PingPong(fx, reversing, strategy) =>
      var r :- Process(fx, d, area, surface, env, fuel);
      if r.overflow.Some? && !reversing then
        var fx' :- Reset(r.node);
        Ok(Tick(PingPong(Reverse(fx'), true, strategy), None, r.paints))
      else Ok(Tick(PingPong(r.node, reversing, strategy), r.overflow, r.paints))
    case Prolong(inner, pad, position) => StepProlong(inner, pad, position, d, area, surface, env, fuel)
    case NeverComplete(fx) =>
      var r :- Process(fx, d, area, surface, env, fuel);
      Ok(Tick(NeverComplete(r.node), None, r.paints))
    case Temporary(fx, cap) =>
      var p := T.Process(cap, d);
      var r :- Process(fx, d, area, surface, env, fuel);
      Ok(Tick(Temporary(r.node, p.timer), p.overflow, r.paints))
    case Resize(child, _, origin, initial, t) => StepResize(child, origin, initial, t, d, area, surface, env, fuel)
    case Translate(child, _, origin, shift, lifetime) =>
      StepTranslate(s, child, origin, shift, lifetime, d, area, surface, env, fuel)
  }

  /** The state of Sequential's loop: the children, the cursor, the budget
      still to hand out, and the paints so far. */
  datatype SeqState = SeqState(fxs: seq<Shader>, current: nat, remaining: Option<nat>, paints: seq<Paint>)

  /** Sequential's `while` loop: while budget remains and the cursor is
      inside the sequence, process the child at the cursor with the whole
      remaining budget and move on only when it is done. One unit of fuel
      is spent per turn. */
  function SeqLoop(st: SeqState, area: Rect, surface: Surface, env: Env, fuel: nat): (r: Result<SeqState, Fault>)
    ensures r.Ok? ==> |r.value.fxs| == |st.fxs| && r.value.current >= st.current
    ensures r.Ok? ==> r.value.remaining.None? || r.value.current >= |st.fxs|
    ensures r.Ok? && r.value.remaining.Some? ==> st.remaining.Some? && r.value.remaining.value <= st.remaining.value
    ensures r.Ok? && st.current <= |st.fxs| ==> r.value.current <= |st.fxs|
    ensures r.Ok? ==> forall i | 0 <= i < |st.fxs| && (i < st.current || i > r.value.current) :: r.value.fxs[i] == st.fxs[i]
    ensures r.Ok? ==> forall i | st.current <= i < r.value.current && i < |st.fxs| :: Done(r.value.fxs[i])
    decreases fuel, 1, 0
  {
    if st.remaining.None? || st.current >= |st.fxs| then Ok(st)
    else if fuel == 0 then Err(OutOfFuel)
    else
      var r :- Process(st.fxs[st.current], st.remaining.value, area, surface, env, fuel);
      SeqLoop(SeqNext(st, r), area, surface, env, fuel - 1)
  }

  /** The loop state after the child at the cursor took its tick. */
  function SeqNext(st: SeqState, t: Tick): SeqState
    requires st.current < |st.fxs|
  {
    SeqState(st.fxs[st.current := t.node], if Done(t.node) then st.current + 1 else st.current,
             t.overflow, st.paints + t.paints)
  }

  /** One turn of Sequential's loop: the child at the cursor takes the
      budget, then the loop goes on with one unit of fuel less. */
  lemma SeqLoopTurn(st: SeqState, area: Rect, surface: Surface, env: Env, f: nat)
    requires f > 0 && st.remaining.Some? && st.current < |st.fxs|
    ensures var t := Process(st.fxs[st.current], st.remaining.value, area, surface, env, f);
            SeqLoop(st, area, surface, env, f)
              == if t.Err? then Err(t.error) else SeqLoop(SeqNext(st, t.value), area, surface, env, f - 1)
  {
  }

  /** Where Sequential's loop ends without a turn: out of budget or of
      children, it returns the state; otherwise out of fuel, it fails. */
  lemma SeqLoopEdges(st: SeqState, area: Rect, surface: Surface, env: Env, f: nat)
    ensures st.remaining.None? || st.current >= |st.fxs| ==> SeqLoop(st, area, surface, env, f) == Ok(st)
    ensures st.remaining.Some? && st.current < |st.fxs| && f == 0 ==> SeqLoop(st, area, surface, env, f) == Err(OutOfFuel)
  {
  }

  /** The state of Parallel's loop: the children visited so far, the
      combined overflow, and the paints so far. */
  datatype ParState = ParState(fxs: seq<Shader>, remaining: Option<nat>, paints: seq<Paint>)

  /** Parallel's `for` loop over the children: each is visited in turn,
      from the prefix `acc` already visited. */
  function ParLoop(fxs: seq<Shader>, acc: ParState, d: nat, area: Rect, surface: Surface, env: Env, fuel: nat)
    : (r: Result<ParState, Fault>)
    requires |acc.fxs| <= |fxs|
    ensures r.Ok? ==> |r.value.fxs| == |fxs| && r.value.fxs[..|acc.fxs|] == acc.fxs
    ensures r.Ok? && r.value.remaining.Some? ==> acc.remaining.Some? && r.value.remaining.value <= acc.remaining.value
    decreases fuel, 1, |fxs| - |acc.fxs|
  {
    if |acc.fxs| == |fxs| then Ok(acc)
    else
      var next :- ParVisit(fxs[|acc.fxs|], acc, d, area, surface, env, fuel);
      ParLoop(fxs, next, d, area, surface, env, fuel)
  }

  /** One turn of Parallel's loop: a done child is kept as it is; a running
      child gets the full tick, and a child reporting None makes the result
      None, otherwise the result is the least overflow seen. */
  function ParVisit(fx: Shader, acc: ParState, d: nat, area: Rect, surface: Surface, env: Env, fuel: nat)
    : (r: Result<ParState, Fault>)
    ensures r.Ok? ==> |r.value.fxs| == |acc.fxs| + 1 && r.value.fxs[..|acc.fxs|] == acc.fxs
    ensures r.Ok? && r.value.remaining.Some? ==> acc.remaining.Some? && r.value.remaining.value <= acc.remaining.value
    decreases fuel, 0, 1
  {
    if Done(fx) then Ok(ParState(acc.fxs + [fx], acc.remaining, acc.paints))
    else
      var r :- Process(fx, d, area, surface, env, fuel);
      var remaining := if r.overflow.None? || acc.remaining.None? then None
                       else Some(Min(r.overflow.value, acc.remaining.value));
      Ok(ParState(acc.fxs + [r.node], remaining, acc.paints + r.paints))
  }

  /** `Repeat::process`. */
  function StepRepeat(fx: Shader, mode: RepeatMode, original: RepeatMode, d: nat, area: Rect,
                      surface: Surface, env: Env, fuel: nat): (r: Result<Tick, Fault>)
    ensures r.Ok? && r.value.overflow.Some? ==> r.value.overflow.value <= d
    decreases fuel, 1, 0
  {
    match mode
    case Forever =>
      var r :- Process(fx, d, area, surface, env, fuel);
      var fx' :- if r.overflow.Some? then Reset(r.node) else Ok(r.node);
      Ok(Tick(Repeat(fx', Forever, original), None, r.paints))
    case Times(n) =>
      var r :- Process(fx, d, area, surface, env, fuel);
      if r.overflow.None? then Ok(Tick(Repeat(r.node, mode, original), None, r.paints))
      else if n == 1 then Ok(Tick(Repeat(r.node, Times(0), original), r.overflow, r.paints))
      else if n == 0 then Err(Panic(SUBTRACT_OVERFLOW))
      else
        var fx' :- Reset(r.node);
        Ok(Tick(Repeat(fx', Times(n - 1), original), r.overflow, r.paints))
    case ForDuration(cap) =>
      var budget := if cap < d then cap else d;
      var r :- Process(fx, budget, area, surface, env, fuel);
      var fx' :- if r.overflow.Some? then Reset(r.node) else Ok(r.node);
      if cap < d then
        Ok(Tick(Repeat(fx', ForDuration(0), original), Some(r.overflow.GetOr(0) + (d - cap)), r.paints))
      else
        Ok(Tick(Repeat(fx', ForDuration(cap - d), original), r.overflow, r.paints))
  }

  /** `Prolong::process`: Start pads before the inner effect, End after. */
  function StepProlong(inner: Shader, pad: T.EffectTimer, position: ProlongPosition, d: nat, area: Rect,
                       surface: Surface, env: Env, fuel: nat): (r: Result<Tick, Fault>)
    ensures r.Ok? && r.value.overflow.Some? ==> r.value.overflow.value <= d
    decreases fuel, 1, 0
  {
    match position
    case Start =>
      var p := T.Process(pad, d);
      var r :- Process(inner, p.overflow.GetOr(0), area, surface, env, fuel);
      Ok(Tick(Prolong(r.node, p.timer, Start), r.overflow, r.paints))
    case End =>
      var r :- Process(inner, d, area, surface, env, fuel);
      if r.overflow.None? then Ok(Tick(Prolong(r.node, pad, End), None, r.paints))
      else
        var p := T.Process(pad, r.overflow.value);
        Ok(Tick(Prolong(r.node, p.timer, End), p.overflow, r.paints))
  }

  /** `ResizeArea::process`: the first area seen becomes the target; the
      size is lerped from the initial size with the alpha read before the
      timer advances, and the child is processed at the centred area. */
  function StepResize(child: Option<Shader>, origin: Option<Rect>, initial: Size, t: T.EffectTimer, d: nat,
                      area: Rect, surface: Surface, env: Env, fuel: nat): (r: Result<Tick, Fault>)
    ensures r.Ok? && r.value.overflow.Some? ==> r.value.overflow.value <= d
    ensures r.Ok? && child.None? ==> r.value.overflow == T.Process(t, d).overflow
    ensures r.Ok? && r.value.overflow.Some? ==>
      T.Process(t, d).overflow.Some? && r.value.overflow.value <= T.Process(t, d).overflow.value
    ensures r.Ok? ==> r.value.node.Resize? && r.value.node.timer == T.Process(t, d).timer
    decreases fuel, 1, 0
  {
    var target := origin.GetOr(area);
    var alpha := T.Alpha(t, env.ease);
    var p := T.Process(t, d);
    var w := Interp.LerpU16(initial.width, target.width, alpha);
    var h := Interp.LerpU16(initial.height, target.height, alpha);
    if !RectExt.InnerCenteredDefined(target, w, h) then Err(Panic(ADD_OVERFLOW))
    else
      var resized := RectExt.InnerCentered(target, w, h);
      if child.None? then Ok(Tick(Resize(None, Some(resized), Some(target), initial, p.timer), p.overflow, []))
      else
        var r :- Process(SetArea(child.value, resized), d, resized, surface, env, fuel);
        var overflow := if p.overflow.Some? && r.overflow.Some? then Some(Min(p.overflow.value, r.overflow.value)) else None;
        Ok(Tick(Resize(Some(r.node), Some(resized), Some(target), initial, p.timer), overflow, r.paints))
  }

  /** `Translate::process`: a zero-width area is skipped; the first area
      seen becomes the origin, shifted by the lerped offset (clamped at 0). */
  function StepTranslate(s: Shader, child: Option<Shader>, origin: Option<Rect>, shift: (i16, i16),
                         lifetime: T.EffectTimer, d: nat, area: Rect, surface: Surface, env: Env, fuel: nat)
    : (r: Result<Tick, Fault>)
    ensures r.Ok? && r.value.overflow.Some? ==> r.value.overflow.value <= d
    ensures r.Ok? && area.width != 0 ==>
      r.value.overflow == T.Process(lifetime, d).overflow
      && r.value.node.Translate? && r.value.node.origin == Some(origin.GetOr(area))
      && r.value.node.lifetime == T.Process(lifetime, d).timer
    decreases fuel, 1, 0
  {
    if area.width == 0 then Ok(Tick(s, None, []))
    else
      var orig := origin.GetOr(area);
      var (p, alpha) := TimedLeaf(lifetime, d, env);
      var x := WrapI16(orig.x) + Interp.LerpI16(0, shift.0, alpha);
      var y := WrapI16(orig.y) + Interp.LerpI16(0, shift.1, alpha);
      if !(-0x8000 <= x < 0x8000 && -0x8000 <= y < 0x8000) then Err(Panic(ADD_OVERFLOW))
      else
        var lerped := orig.(x := Max(x, 0), y := Max(y, 0));
        if child.None? then Ok(Tick(Translate(None, Some(lerped), Some(orig), shift, p.timer), p.overflow, []))
        else
          var r :- Process(SetArea(child.value, lerped), d, lerped, surface, env, fuel);
          Ok(Tick(Translate(Some(r.node), Some(lerped), Some(orig), shift, p.timer), p.overflow, r.paints))
  }
}
