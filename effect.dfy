/** `Effect`: the owning handle around one shader of the tree. Its builders
    clone the shader and modify the clone; its other operations forward to
    the shader in place. Processing runs the two container loops,
    Sequential's and Parallel's, step by step, and is proved equal to the
    tick function of the tree. */
module Effects {
  import opened Wrappers
  import opened Terminal
  import opened CellFilters
  import opened Shaders
  import T = EffectTimers
  import ShaderLaws

  /** Sequential's `while` loop, run in place: the child at the cursor gets
      the whole remaining budget, the cursor moves on when that child is
      done, and the loop stops once a child absorbs the budget or the
      children run out. */
  method RunSequential(fxs: seq<Shader>, current: nat, d: nat, area: Rect, surface: Surface, env: Env, fuel: nat)
    returns (r: Result<SeqState, Fault>)
    ensures r == SeqLoop(SeqState(fxs, current, Some(d), []), area, surface, env, fuel)
  {
    var st := SeqState(fxs, current, Some(d), []);
    var f := fuel;
    while st.remaining.Some? && st.current < |st.fxs|
      invariant SeqLoop(st, area, surface, env, f) == SeqLoop(SeqState(fxs, current, Some(d), []), area, surface, env, fuel)
      decreases f
    {
      if f == 0 {
        SeqLoopEdges(st, area, surface, env, f);
        return Err(OutOfFuel);
      }
      var next := SeqTurn(st, area, surface, env, f);
      if next.Err? {
        return Err(next.error);
      }
      st := next.value;
      f := f - 1;
    }
    SeqLoopEdges(st, area, surface, env, f);
    r := Ok(st);
  }


  /** The body of Sequential's loop: the child at the cursor takes the
      whole remaining budget; the loop then goes on from the new state with
      one unit of fuel less, or stops with the child's fault. */
  method SeqTurn(st: SeqState, area: Rect, surface: Surface, env: Env, f: nat)
    returns (r: Result<SeqState, Fault>)
    requires f > 0 && st.remaining.Some? && st.current < |st.fxs|
    ensures r.Err? ==> SeqLoop(st, area, surface, env, f) == Err(r.error)
    ensures r.Ok? ==> SeqLoop(st, area, surface, env, f) == SeqLoop(r.value, area, surface, env, f - 1)
  {
    SeqLoopTurn(st, area, surface, env, f);
    var t := Shaders.Process(st.fxs[st.current], st.remaining.value, area, surface, env, f);
    if t.Err? {
      return Err(t.error);
    }
    r := Ok(SeqNext(st, t.value));
  }



  /** Parallel's `for` loop, run in place: every running child gets the
      full tick, finished children are skipped, and the combined overflow
      is None as soon as one child absorbs the tick, else the least
      overflow. */
  method RunParallel(fxs: seq<Shader>, d: nat, area: Rect, surface: Surface, env: Env, fuel: nat)
    returns (r: Result<ParState, Fault>)
    ensures r == ParLoop(fxs, ParState([], Some(d), []), d, area, surface, env, fuel)
  {
    var acc := ParState([], Some(d), []);
    for i := 0 to |fxs|
      invariant |acc.fxs| == i
      invariant ParLoop(fxs, acc, d, area, surface, env, fuel) == ParLoop(fxs, ParState([], Some(d), []), d, area, surface, env, fuel)
    {
      var fx := fxs[i];
      if Done(fx) {
        acc := ParState(acc.fxs + [fx], acc.remaining, acc.paints);
      } else {
        var t := Shaders.Process(fx, d, area, surface, env, fuel);
        if t.Err? {
          return Err(t.error);
        }
        var remaining := if t.value.overflow.None? || acc.remaining.None? then None
                         else Some(Min(t.value.overflow.value, acc.remaining.value));
        acc := ParState(acc.fxs + [t.value.node], remaining, acc.paints + t.value.paints);
      }
    }
    r := Ok(acc);
  }

  class Effect {
    /** The boxed shader. */
    var shader: Shader

    /** `Effect::new`. */
    constructor (s: Shader)
      ensures shader == s
    {
      shader := s;
    }

    /** `Shader::name`, forwarded. */
    function Name(): (n: string)
      reads this
      ensures n == Shaders.Name(shader)
    {
      Shaders.Name(shader)
    }

    /** `Shader::done`, forwarded; an effect is running exactly when it is
        not done. */
    predicate Done()
      reads this
      ensures Done() <==> !Running(shader)
    {
      Shaders.Done(shader)
    }

    /** `Shader::area`, forwarded. */
    function Area(): (a: Option<Rect>)
      reads this
      ensures a == AreaOf(shader)
    {
      AreaOf(shader)
    }

    /** `clone`: a deep copy in a new box; later changes to either copy do
        not reach the other. */
    method Clone() returns (e: Effect)
      ensures fresh(e) && e.shader == shader
    {
      e := new Effect(shader);
    }

    /** `with_area`: a clone with the area set; the receiver is unchanged. */
    method WithArea(area: Rect) returns (e: Effect)
      ensures fresh(e) && e.shader == Shaders.SetArea(shader, area)
    {
      e := Clone();
      e.SetArea(area);
    }

    /** `with_cell_selection`: a clone with the filter set; the receiver is
        unchanged. */
    method WithCellSelection(f: CellFilter) returns (e: Effect)
      ensures fresh(e) && e.shader == Shaders.SetCellSelection(shader, f)
    {
      e := Clone();
      e.SetCellSelection(f);
    }

    /** `reversed`: a clone with the direction toggled; the receiver is
        unchanged. */
    method Reversed() returns (e: Effect)
      ensures fresh(e) && e.shader == Shaders.Reverse(shader)
    {
      e := Clone();
      e.Reverse();
    }

    /** `set_area`, forwarded. */
    method SetArea(area: Rect)
      modifies this
      ensures shader == Shaders.SetArea(old(shader), area)
    {
      shader := Shaders.SetArea(shader, area);
    }

    /** `set_cell_selection`, forwarded. */
    method SetCellSelection(f: CellFilter)
      modifies this
      ensures shader == Shaders.SetCellSelection(old(shader), f)
    {
      shader := Shaders.SetCellSelection(shader, f);
    }

    /** `reverse`, forwarded. */
    method Reverse()
      modifies this
      ensures shader == Shaders.Reverse(old(shader))
    {
      shader := Shaders.Reverse(shader);
    }

    /** `reset`, forwarded; a shader that cannot be reset panics and the
        effect is left as it was. */
    method Reset() returns (r: Result<(), Fault>)
      modifies this
      ensures Shaders.Reset(old(shader)).Ok? ==> r.Ok? && shader == Shaders.Reset(old(shader)).value
      ensures Shaders.Reset(old(shader)).Err? ==> r == Err(Shaders.Reset(old(shader)).error) && shader == old(shader)
    {
      var s := Shaders.Reset(shader);
      if s.Err? {
        return Err(s.error);
      }
      shader := s.value;
      r := Ok(());
    }

    /** `process`: the shader's own area wins over the caller's; the shader
        is advanced in place and the overflow and paints of the tick are
        returned. Sequential and Parallel run their loops; every other node
        takes one step of the tick function. */
    method Process(d: nat, area: Rect, surface: Surface, env: Env, fuel: nat)
      returns (r: Result<(Option<nat>, seq<Paint>), Fault>)
      modifies this
      ensures var spec := Shaders.Process(old(shader), d, area, surface, env, fuel);
              && (r.Ok? <==> spec.Ok?)
              && (r.Ok? ==> r.value == (spec.value.overflow, spec.value.paints) && shader == spec.value.node)
              && (r.Err? ==> r.error == spec.error && shader == old(shader))
    {
      if fuel == 0 {
        return Err(OutOfFuel);
      }
      var at := AreaOf(shader).GetOr(area);
      assert Shaders.Process(shader, d, area, surface, env, fuel) == Step(shader, d, at, surface, env, fuel - 1);
      match shader
      case Sequential(fxs, current) =>
        var st := RunSequential(fxs, current, d, at, surface, env, fuel - 1);
        if st.Err? {
          return Err(st.error);
        }
        shader := Sequential(st.value.fxs, st.value.current);
        r := Ok((st.value.remaining, st.value.paints));
      case Parallel(fxs) =>
        var st := RunParallel(fxs, d, at, surface, env, fuel - 1);
        if st.Err? {
          return Err(st.error);
        }
        shader := Parallel(st.value.fxs);
        r := Ok((st.value.remaining, st.value.paints));
      case _ =>
        var t := Step(shader, d, at, surface, env, fuel - 1);
        if t.Err? {
          return Err(t.error);
        }
        shader := t.value.node;
        r := Ok((t.value.overflow, t.value.paints));
    }
  }

  /** Reversing a clone twice gives back a shader equal to the original,
      and the original box itself is never touched. */
  method ReversedTwice(e: Effect) returns (twice: Effect)
    ensures fresh(twice) && twice.shader == e.shader
  {
    var once := e.Reversed();
    twice := once.Reversed();
    ShaderLaws.ReverseInvolution(e.shader);
  }
}
