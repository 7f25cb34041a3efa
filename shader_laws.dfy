/** Laws of the effect tree: how reversing, re-targeting, resetting and
    processing a tick behave for each combinator. */
module ShaderLaws {
  import opened Wrappers
  import opened Terminal
  import T = EffectTimers
  import opened CellFilters
  import opened Shaders
  import Interp = Interpolation
  import Easing
  import Painters
  import RectExt
  import Durations
  import Glitches

  // ------------------------------------------------------------ reverse

  /** Reversing twice gives back the same tree. */
  lemma {:induction false} ReverseInvolution(s: Shader)
    ensures Reverse(Reverse(s)) == s
  {
    match s
    case Sequential(fxs, _) =>
      forall i | 0 <= i < |fxs| ensures Reverse(Reverse(fxs[i])) == fxs[i] {
        ReverseInvolution(fxs[i]);
      }
    case Parallel(fxs) =>
      forall i | 0 <= i < |fxs| ensures Reverse(Reverse(fxs[i])) == fxs[i] {
        ReverseInvolution(fxs[i]);
      }
    case PingPong(fx, _, _) => ReverseInvolution(fx);
    case NeverComplete(fx) => ReverseInvolution(fx);
    case _ =>
  }

  /** Reversing changes neither whether an effect is done nor its area. */
  lemma {:induction false} ReverseKeepsDoneAndArea(s: Shader)
    ensures Done(Reverse(s)) <==> Done(s)
    ensures AreaOf(Reverse(s)) == AreaOf(s)
  {
    match s
    case Sequential(fxs, _) =>
    case Parallel(fxs) =>
      forall i | 0 <= i < |fxs| ensures Done(Reverse(s).fxs[i]) <==> Done(fxs[i]) {
        ReverseKeepsDoneAndArea(fxs[i]);
      }
    case PingPong(fx, _, _) => ReverseKeepsDoneAndArea(fx);
    case NeverComplete(fx) => ReverseKeepsDoneAndArea(fx);
    case _ =>
  }

  /** Reversing and re-targeting commute. */
  lemma {:induction false} ReverseCommutesWithSetArea(s: Shader, a: Rect)
    ensures Reverse(SetArea(s, a)) == SetArea(Reverse(s), a)
  {
    match s
    case Sequential(fxs, current) =>
      var l, r := Reverse(SetArea(s, a)).fxs, SetArea(Reverse(s), a).fxs;
      forall i | 0 <= i < |fxs| ensures l[i] == r[i] {
        ReverseCommutesWithSetArea(fxs[i], a);
      }
      assert l == r;
    case Parallel(fxs) =>
      var l, r := Reverse(SetArea(s, a)).fxs, SetArea(Reverse(s), a).fxs;
      forall i | 0 <= i < |fxs| ensures l[i] == r[i] {
        ReverseCommutesWithSetArea(fxs[i], a);
      }
      assert l == r;
    case PingPong(fx, _, _) => ReverseCommutesWithSetArea(fx, a);
    case NeverComplete(fx) => ReverseCommutesWithSetArea(fx, a);
    case _ => ReverseSetAreaShallow(s, a);
  }

  /** The nodes whose reverse does not reach a child that set_area reaches. */
  lemma ReverseSetAreaShallow(s: Shader, a: Rect)
    requires !s.Sequential? && !s.Parallel? && !s.PingPong? && !s.NeverComplete?
    ensures Reverse(SetArea(s, a)) == SetArea(Reverse(s), a)
  {
  }

  // ------------------------------------------------------------ area and selection

  /** Setting the same area twice is setting it once. */
  lemma {:induction false} SetAreaIdempotent(s: Shader, a: Rect)
    ensures SetArea(SetArea(s, a), a) == SetArea(s, a)
  {
    match s
    case Offscreen(fx, _) => SetAreaIdempotent(fx, a);
    case Sequential(fxs, _) =>
      forall i | 0 <= i < |fxs| ensures SetArea(SetArea(fxs[i], a), a) == SetArea(fxs[i], a) {
        SetAreaIdempotent(fxs[i], a);
      }
    case Parallel(fxs) =>
      forall i | 0 <= i < |fxs| ensures SetArea(SetArea(fxs[i], a), a) == SetArea(fxs[i], a) {
        SetAreaIdempotent(fxs[i], a);
      }
    case Repeat(fx, _, _) => SetAreaIdempotent(fx, a);
    case PingPong(fx, _, _) => SetAreaIdempotent(fx, a);
    case Prolong(inner, _, _) => SetAreaIdempotent(inner, a);
    case NeverComplete(fx) => SetAreaIdempotent(fx, a);
    case Temporary(fx, _) => SetAreaIdempotent(fx, a);
    case Resize(child, _, _, _, _) => if child.Some? { SetAreaIdempotent(child.value, a); }
    case Translate(child, _, _, _, _) => if child.Some? { SetAreaIdempotent(child.value, a); }
    case _ =>
  }

  /** An effect that reports an area reports the one last set, unless an
      offscreen buffer supplies its own render target's area. */
  lemma {:induction false} SetAreaIsReported(s: Shader, a: Rect)
    ensures AreaOf(SetArea(s, a)) == None || AreaOf(SetArea(s, a)) == Some(a) || HasOffscreen(s)
  {
    match s
    case Repeat(fx, _, _) => SetAreaIsReported(fx, a);
    case PingPong(fx, _, _) => SetAreaIsReported(fx, a);
    case Prolong(inner, _, _) => SetAreaIsReported(inner, a);
    case NeverComplete(fx) => SetAreaIsReported(fx, a);
    case Temporary(fx, _) => SetAreaIsReported(fx, a);
    case Translate(child, _, _, _, _) => if child.Some? { SetAreaIsReported(child.value, a); }
    case _ =>
  }

  /** The effect contains an offscreen buffer on the path its area is read
      through. */
  predicate HasOffscreen(s: Shader) {
    match s
    case Offscreen(_, _) => true
    case Repeat(fx, _, _) => HasOffscreen(fx)
    case PingPong(fx, _, _) => HasOffscreen(fx)
    case Prolong(inner, _, _) => HasOffscreen(inner)
    case NeverComplete(fx) => HasOffscreen(fx)
    case Temporary(fx, _) => HasOffscreen(fx)
    case Translate(child, _, _, _, _) => child.Some? && HasOffscreen(child.value)
    case _ => false
  }

  /** A cell selection the effect reports is replaced by the one set. */
  lemma {:induction false} SelectionIsReplaced(s: Shader, f: CellFilter)
    requires CellSelection(s).Ok? && CellSelection(s).value.Some?
    ensures CellSelection(SetCellSelection(s, f)) == Ok(Some(f))
  {
    match s
    case Repeat(fx, _, _) => SelectionIsReplaced(fx, f);
    case Prolong(inner, _, _) => SelectionIsReplaced(inner, f);
    case NeverComplete(fx) => SelectionIsReplaced(fx, f);
    case Temporary(fx, _) => SelectionIsReplaced(fx, f);
    case Resize(child, _, _, _, _) => SelectionIsReplaced(child.value, f);
    case _ =>
  }

  // ------------------------------------------------------------ reset

  /** Resetting a freshly reset effect changes nothing more. */
  lemma {:induction false} ResetIdempotent(s: Shader)
    requires Shaders.Reset(s).Ok?
    ensures Shaders.Reset(Shaders.Reset(s).value) == Shaders.Reset(s)
  {
    match s
    case Sequential(fxs, _) =>
      var rs := seq(|fxs|, i requires 0 <= i < |fxs| => Shaders.Reset(fxs[i]));
      var cs := Shaders.Reset(s).value.fxs;
      assert AllOk(rs) == Ok(cs);
      forall i | 0 <= i < |fxs| ensures Shaders.Reset(cs[i]) == Ok(cs[i]) {
        assert rs[i] == Shaders.Reset(fxs[i]) == Ok(cs[i]);
        ResetIdempotent(fxs[i]);
      }
      ResetChildren(cs);
    case Parallel(fxs) =>
      var rs := seq(|fxs|, i requires 0 <= i < |fxs| => Shaders.Reset(fxs[i]));
      var cs := Shaders.Reset(s).value.fxs;
      assert AllOk(rs) == Ok(cs);
      forall i | 0 <= i < |fxs| ensures Shaders.Reset(cs[i]) == Ok(cs[i]) {
        assert rs[i] == Shaders.Reset(fxs[i]) == Ok(cs[i]);
        ResetIdempotent(fxs[i]);
      }
      ResetChildren(cs);
    case Repeat(fx, _, _) => ResetIdempotent(fx);
    case Prolong(inner, _, _) => ResetIdempotent(inner);
    case NeverComplete(fx) => ResetIdempotent(fx);
    case Temporary(fx, _) => ResetIdempotent(fx);
    case Resize(child, _, _, _, _) => if child.Some? { ResetIdempotent(child.value); }
    case _ =>
  }

  /** Children that reset to themselves reset, as a whole, to themselves. */
  lemma ResetChildren(cs: seq<Shader>)
    requires forall i | 0 <= i < |cs| :: Shaders.Reset(cs[i]) == Ok(cs[i])
    ensures AllOk(seq(|cs|, i requires 0 <= i < |cs| => Shaders.Reset(cs[i]))) == Ok(cs)
  {
    var r := AllOk(seq(|cs|, i requires 0 <= i < |cs| => Shaders.Reset(cs[i])));
    assert r.Ok?;
    assert r.value == cs;
  }

  /** A reset sequence starts again at its first child; a reset consumer
      of ticks is pending again; a reset ping-pong runs forward again. */
  lemma ResetRestarts(s: Shader)
    requires Shaders.Reset(s).Ok?
    ensures s.Sequential? ==> Shaders.Reset(s).value.current == 0 && (|s.fxs| > 0 ==> !Done(Shaders.Reset(s).value))
    ensures s.ConsumeTick? ==> !Done(Shaders.Reset(s).value)
    ensures s.PingPong? ==> !Shaders.Reset(s).value.reversing && Shaders.Reset(s).value.fx == s.fx
    ensures s.Repeat? ==> Shaders.Reset(s).value.mode == s.originalMode
  {
  }

  // ------------------------------------------------------------ processing: leaves

  /** A timed leaf that is already done passes a whole non-zero tick
      through as overflow. */
  lemma DoneLeafPassesTick(s: Shader, d: nat, area: Rect, surface: Surface, env: Env, fuel: nat)
    requires s.Sleep? && s.timer.Done() && d > 0 && fuel > 0
    ensures Process(s, d, area, surface, env, fuel) == Ok(Tick(s, Some(d), []))
  {
    T.ProcessDone(s.timer, d);
  }

  /** ConsumeTick swallows the first tick whole and is done afterwards. */
  lemma ConsumeTickSwallows(consumed: bool, d: nat, area: Rect, surface: Surface, env: Env, fuel: nat)
    requires fuel > 0
    ensures Process(ConsumeTick(consumed), d, area, surface, env, fuel) == Ok(Tick(ConsumeTick(true), None, []))
    ensures Done(ConsumeTick(true))
  {
  }

  /** A painter paints once per tick at the effective area, with the alpha
      of its advanced timer, and reports the timer's overflow; an area that
      leaves the buffer panics. */
  lemma PainterTick(s: Shader, d: nat, area: Rect, surface: Surface, env: Env, fuel: nat)
    requires s.Painter? && fuel > 0
    ensures var r := Process(s, d, area, surface, env, fuel);
            var at := s.area.GetOr(area);
            var p := T.Process(s.timer, d);
            (r.Ok? <==> Painters.Paintable(SurfaceArea(surface, env), at))
            && (r.Ok? ==> r.value == Tick(Painter(s.kind, p.timer, s.area, s.filter), p.overflow,
                                          [Painted(s.kind, T.Alpha(p.timer, env.ease), at, surface)]))
  {
  }

  // ------------------------------------------------------------ processing: sequential

  /** A sequence reports overflow only once every child is done, and never
      more than the tick; children before the cursor are untouched and
      every child the cursor passed is done. */
  lemma SequentialTick(fxs: seq<Shader>, current: nat, d: nat, area: Rect, surface: Surface, env: Env, fuel: nat)
    requires fuel > 0 && current <= |fxs|
    requires Process(Sequential(fxs, current), d, area, surface, env, fuel).Ok?
    ensures var t := Process(Sequential(fxs, current), d, area, surface, env, fuel).value;
            && t.node.Sequential? && |t.node.fxs| == |fxs| && current <= t.node.current <= |fxs|
            && (t.overflow.Some? ==> Done(t.node) && t.overflow.value <= d)
            && (forall i | 0 <= i < current :: t.node.fxs[i] == fxs[i])
            && (forall i | current <= i < t.node.current :: Done(t.node.fxs[i]))
  {
  }

  /** An empty sequence, or one whose cursor is past the end, passes the
      tick through unchanged. */
  lemma FinishedSequencePassesTick(fxs: seq<Shader>, current: nat, d: nat, area: Rect, surface: Surface,
                                   env: Env, fuel: nat)
    requires fuel > 0 && current >= |fxs|
    ensures Process(Sequential(fxs, current), d, area, surface, env, fuel)
         == Ok(Tick(Sequential(fxs, current), Some(d), []))
  {
    assert SeqLoop(SeqState(fxs, current, Some(d), []), area, surface, env, fuel - 1)
        == Ok(SeqState(fxs, current, Some(d), []));
  }

  /** When the child at the cursor absorbs the tick, it alone is processed
      and the cursor stays or moves one step. */
  lemma SequentialAbsorbed(fxs: seq<Shader>, current: nat, d: nat, area: Rect, surface: Surface, env: Env, fuel: nat)
    requires fuel > 1 && current < |fxs|
    requires Process(fxs[current], d, area, surface, env, fuel - 1).Ok?
    requires Process(fxs[current], d, area, surface, env, fuel - 1).value.overflow.None?
    ensures var c := Process(fxs[current], d, area, surface, env, fuel - 1).value;
            Process(Sequential(fxs, current), d, area, surface, env, fuel)
              == Ok(Tick(Sequential(fxs[current := c.node], if Done(c.node) then current + 1 else current),
                         None, c.paints))
  {
    var c := Process(fxs[current], d, area, surface, env, fuel - 1).value;
    var st := SeqState(fxs, current, Some(d), []);
    assert [] + c.paints == c.paints;
    var next := SeqState(fxs[current := c.node], if Done(c.node) then current + 1 else current, None, c.paints);
    assert SeqNext(st, c) == next;
    SeqLoopTurn(st, area, surface, env, fuel - 1);
    SeqLoopEdges(next, area, surface, env, fuel - 2);
    ProcessSequential(fxs, current, d, area, surface, env, fuel);
  }

  /** A tick of a sequence is its loop, from the cursor with the whole
      tick, at the caller's area. */
  lemma ProcessSequential(fxs: seq<Shader>, current: nat, d: nat, area: Rect, surface: Surface, env: Env, fuel: nat)
    requires fuel > 0
    ensures var r := SeqLoop(SeqState(fxs, current, Some(d), []), area, surface, env, fuel - 1);
            Process(Sequential(fxs, current), d, area, surface, env, fuel)
              == if r.Err? then Err(r.error)
                 else Ok(Tick(Sequential(r.value.fxs, r.value.current), r.value.remaining, r.value.paints))
  {
    assert AreaOf(Sequential(fxs, current)).GetOr(area) == area;
  }

  // ------------------------------------------------------------ processing: parallel

  /** The running child absorbed the tick (reported no overflow). */
  predicate Absorbs(fx: Shader, d: nat, area: Rect, surface: Surface, env: Env, fuel: nat) {
    Running(fx) && Process(fx, d, area, surface, env, fuel).Ok?
    && Process(fx, d, area, surface, env, fuel).value.overflow.None?
  }

  /** Parallel's loop from the visited prefix `acc`: every running child
      is processed with the whole tick and done children are kept. */
  lemma {:induction false} ParLoopChildren(fxs: seq<Shader>, acc: ParState, d: nat, area: Rect, surface: Surface,
                                           env: Env, fuel: nat)
    requires |acc.fxs| <= |fxs|
    requires ParLoop(fxs, acc, d, area, surface, env, fuel).Ok?
    ensures var r := ParLoop(fxs, acc, d, area, surface, env, fuel).value;
            forall i | |acc.fxs| <= i < |fxs| ::
              if Done(fxs[i]) then r.fxs[i] == fxs[i]
              else Process(fxs[i], d, area, surface, env, fuel).Ok?
                   && r.fxs[i] == Process(fxs[i], d, area, surface, env, fuel).value.node
    decreases |fxs| - |acc.fxs|
  {
    var k := |acc.fxs|;
    if k < |fxs| {
      var next := ParVisit(fxs[k], acc, d, area, surface, env, fuel).value;
      ParLoopChildren(fxs, next, d, area, surface, env, fuel);
      var r := ParLoop(fxs, next, d, area, surface, env, fuel).value;
      assert r.fxs[k] == next.fxs[k] by {
        assert r.fxs[..|next.fxs|] == next.fxs;
      }
    }
  }

  /** The result of Parallel's loop is None exactly when the incoming
      overflow is None or some running child absorbed the tick. */
  lemma {:induction false} ParLoopAbsorbed(fxs: seq<Shader>, acc: ParState, d: nat, area: Rect, surface: Surface,
                                           env: Env, fuel: nat)
    requires |acc.fxs| <= |fxs|
    requires ParLoop(fxs, acc, d, area, surface, env, fuel).Ok?
    ensures ParLoop(fxs, acc, d, area, surface, env, fuel).value.remaining.None? <==>
              acc.remaining.None? || exists i | |acc.fxs| <= i < |fxs| :: Absorbs(fxs[i], d, area, surface, env, fuel)
    decreases |fxs| - |acc.fxs|
  {
    var k := |acc.fxs|;
    if k < |fxs| {
      var next := ParVisit(fxs[k], acc, d, area, surface, env, fuel).value;
      ParLoopAbsorbed(fxs, next, d, area, surface, env, fuel);
      assert next.remaining.None? <==> acc.remaining.None? || Absorbs(fxs[k], d, area, surface, env, fuel);
      if exists i | k <= i < |fxs| :: Absorbs(fxs[i], d, area, surface, env, fuel) {
        var i :| k <= i < |fxs| && Absorbs(fxs[i], d, area, surface, env, fuel);
        assert i == k || k + 1 <= i;
      }
    }
  }

  /** A Some result of Parallel's loop is no larger than the overflow of
      any running child. */
  lemma {:induction false} ParLoopLeast(fxs: seq<Shader>, acc: ParState, d: nat, area: Rect, surface: Surface,
                                        env: Env, fuel: nat)
    requires |acc.fxs| <= |fxs|
    requires ParLoop(fxs, acc, d, area, surface, env, fuel).Ok?
    ensures var r := ParLoop(fxs, acc, d, area, surface, env, fuel).value;
            r.remaining.Some? ==>
              forall i | |acc.fxs| <= i < |fxs| && Running(fxs[i]) ::
                Process(fxs[i], d, area, surface, env, fuel).Ok?
                && Process(fxs[i], d, area, surface, env, fuel).value.overflow.Some?
                && r.remaining.value <= Process(fxs[i], d, area, surface, env, fuel).value.overflow.value
    decreases |fxs| - |acc.fxs|
  {
    var k := |acc.fxs|;
    if k < |fxs| {
      var next := ParVisit(fxs[k], acc, d, area, surface, env, fuel).value;
      ParLoopLeast(fxs, next, d, area, surface, env, fuel);
    }
  }

  /** A tick of a parallel group: every running child gets the whole tick,
      done children stay as they are; the group reports None as soon as one
      running child absorbed the tick, and otherwise the least overflow,
      which is at most the tick. */
  lemma ParallelTick(fxs: seq<Shader>, d: nat, area: Rect, surface: Surface, env: Env, fuel: nat)
    requires fuel > 0
    requires Process(Parallel(fxs), d, area, surface, env, fuel).Ok?
    ensures var t := Process(Parallel(fxs), d, area, surface, env, fuel).value;
            && t.node.Parallel? && |t.node.fxs| == |fxs|
            && (forall i | 0 <= i < |fxs| ::
                  if Done(fxs[i]) then t.node.fxs[i] == fxs[i]
                  else Process(fxs[i], d, area, surface, env, fuel - 1).Ok?
                       && t.node.fxs[i] == Process(fxs[i], d, area, surface, env, fuel - 1).value.node)
            && (t.overflow.None? <==> exists i | 0 <= i < |fxs| :: Absorbs(fxs[i], d, area, surface, env, fuel - 1))
            && (t.overflow.Some? ==>
                  && t.overflow.value <= d
                  && forall i | 0 <= i < |fxs| && Running(fxs[i]) ::
                       t.overflow.value <= Process(fxs[i], d, area, surface, env, fuel - 1).value.overflow.value)
  {
    ParLoopChildren(fxs, ParState([], Some(d), []), d, area, surface, env, fuel - 1);
    ParLoopAbsorbed(fxs, ParState([], Some(d), []), d, area, surface, env, fuel - 1);
    ParLoopLeast(fxs, ParState([], Some(d), []), d, area, surface, env, fuel - 1);
  }

  // ------------------------------------------------------------ processing: wrappers

  /** Repeat forever: never done, never reports overflow; the child is
      reset whenever it overflows. */
  lemma RepeatForever(fx: Shader, original: RepeatMode, d: nat, area: Rect, surface: Surface, env: Env, fuel: nat)
    requires fuel > 0
    requires Process(Repeat(fx, Forever, original), d, area, surface, env, fuel).Ok?
    ensures Process(fx, d, AreaOf(fx).GetOr(area), surface, env, fuel - 1).Ok?
    ensures var t := Process(Repeat(fx, Forever, original), d, area, surface, env, fuel).value;
            var c := Process(fx, d, AreaOf(fx).GetOr(area), surface, env, fuel - 1).value;
            && t.overflow.None? && !Done(t.node)
            && t.node.Repeat? && t.node.mode == Forever && t.node.originalMode == original
            && (c.overflow.None? ==> t.node.fx == c.node)
            && (c.overflow.Some? ==> Shaders.Reset(c.node) == Ok(t.node.fx))
  {
    var a := AreaOf(fx).GetOr(area);
    assert Process(Repeat(fx, Forever, original), d, area, surface, env, fuel)
        == StepRepeat(fx, Forever, original, d, a, surface, env, fuel - 1);
  }

  /** Repeat n times: a pass that overflows counts one down (and resets the
      child unless it was the last); the last pass's overflow is reported;
      a count already at zero panics on the subtraction. */
  lemma RepeatTimes(fx: Shader, n: u32, original: RepeatMode, d: nat, area: Rect, surface: Surface, env: Env,
                    fuel: nat)
    requires fuel > 0
    requires Process(fx, d, AreaOf(fx).GetOr(area), surface, env, fuel - 1).Ok?
    ensures var r := Process(Repeat(fx, Times(n), original), d, area, surface, env, fuel);
            var c := Process(fx, d, AreaOf(fx).GetOr(area), surface, env, fuel - 1).value;
            && (c.overflow.None? ==> r == Ok(Tick(Repeat(c.node, Times(n), original), None, c.paints)))
            && (c.overflow.Some? && n == 0 ==> r == Err(Panic(SUBTRACT_OVERFLOW)))
            && (c.overflow.Some? && n == 1 ==>
                  r == Ok(Tick(Repeat(c.node, Times(0), original), c.overflow, c.paints)) && Done(r.value.node))
            && (c.overflow.Some? && n > 1 && Shaders.Reset(c.node).Ok? ==>
                  r == Ok(Tick(Repeat(Shaders.Reset(c.node).value, Times(n - 1), original), c.overflow, c.paints))
                  && !Done(r.value.node))
  {
    var a := AreaOf(fx).GetOr(area);
    assert Process(Repeat(fx, Times(n), original), d, area, surface, env, fuel)
        == StepRepeat(fx, Times(n), original, d, a, surface, env, fuel - 1);
  }

  /** Repeat for a duration: a tick longer than the time left gives the
      child only the time left, finishes the repeat, and reports the rest
      of the tick on top of the child's own overflow. */
  lemma RepeatForDuration(fx: Shader, cap: nat, original: RepeatMode, d: nat, area: Rect, surface: Surface,
                          env: Env, fuel: nat)
    requires fuel > 0 && cap < d
    requires Process(Repeat(fx, ForDuration(cap), original), d, area, surface, env, fuel).Ok?
    ensures Process(fx, cap, AreaOf(fx).GetOr(area), surface, env, fuel - 1).Ok?
    ensures var t := Process(Repeat(fx, ForDuration(cap), original), d, area, surface, env, fuel).value;
            var c := Process(fx, cap, AreaOf(fx).GetOr(area), surface, env, fuel - 1).value;
            Done(t.node) && t.overflow == Some(c.overflow.GetOr(0) + (d - cap))
  {
    ProcessRepeat(fx, ForDuration(cap), original, d, area, surface, env, fuel);
  }

  /** A tick of a repeat is its mode's step at the child's own area, if
      set. */
  lemma ProcessRepeat(fx: Shader, mode: RepeatMode, original: RepeatMode, d: nat, area: Rect, surface: Surface,
                      env: Env, fuel: nat)
    requires fuel > 0
    ensures Process(Repeat(fx, mode, original), d, area, surface, env, fuel)
         == StepRepeat(fx, mode, original, d, AreaOf(fx).GetOr(area), surface, env, fuel - 1)
  {
    assert AreaOf(Repeat(fx, mode, original)) == AreaOf(fx);
  }

  /** Ping-pong: the first overflow of the forward pass is swallowed and
      the reset child is reversed; once reversing, overflow passes through. */
  lemma PingPongTurns(fx: Shader, reversing: bool, strategy: CellFilter, d: nat, area: Rect, surface: Surface,
                      env: Env, fuel: nat)
    requires fuel > 0
    requires Process(PingPong(fx, reversing, strategy), d, area, surface, env, fuel).Ok?
    ensures Process(fx, d, AreaOf(fx).GetOr(area), surface, env, fuel - 1).Ok?
    ensures var t := Process(PingPong(fx, reversing, strategy), d, area, surface, env, fuel).value;
            var c := Process(fx, d, AreaOf(fx).GetOr(area), surface, env, fuel - 1).value;
            if c.overflow.Some? && !reversing then
              && Shaders.Reset(c.node).Ok?
              && t.overflow.None? && t.node == PingPong(Reverse(Shaders.Reset(c.node).value), true, strategy)
            else t.overflow == c.overflow && t.node == PingPong(c.node, reversing, strategy)
  {
  }

  /** Prolong at the start: a tick within the padding reaches the inner
      effect as a zero tick. */
  lemma ProlongStartPads(inner: Shader, pad: T.EffectTimer, d: nat, area: Rect, surface: Surface, env: Env, fuel: nat)
    requires fuel > 0 && d <= pad.remaining
    requires Process(inner, 0, AreaOf(inner).GetOr(area), surface, env, fuel - 1).Ok?
    ensures var c := Process(inner, 0, AreaOf(inner).GetOr(area), surface, env, fuel - 1).value;
            Process(Prolong(inner, pad, Start), d, area, surface, env, fuel)
              == Ok(Tick(Prolong(c.node, T.Process(pad, d).timer, Start), c.overflow, c.paints))
  {
    var a := AreaOf(inner).GetOr(area);
    assert Process(Prolong(inner, pad, Start), d, area, surface, env, fuel)
        == StepProlong(inner, pad, Start, d, a, surface, env, fuel - 1);
  }

  /** Prolong at the end: the padding only starts on the inner effect's
      overflow, and the padding's overflow is what is reported. */
  lemma ProlongEndPads(inner: Shader, pad: T.EffectTimer, d: nat, area: Rect, surface: Surface, env: Env, fuel: nat)
    requires fuel > 0
    requires Process(Prolong(inner, pad, End), d, area, surface, env, fuel).Ok?
    ensures Process(inner, d, AreaOf(inner).GetOr(area), surface, env, fuel - 1).Ok?
    ensures var t := Process(Prolong(inner, pad, End), d, area, surface, env, fuel).value;
            var c := Process(inner, d, AreaOf(inner).GetOr(area), surface, env, fuel - 1).value;
            if c.overflow.None? then t.overflow.None? && t.node == Prolong(c.node, pad, End)
            else t.overflow == T.Process(pad, c.overflow.value).overflow
  {
    var a := AreaOf(inner).GetOr(area);
    assert Process(Prolong(inner, pad, End), d, area, surface, env, fuel)
        == StepProlong(inner, pad, End, d, a, surface, env, fuel - 1);
  }

  /** Never-complete: never done, never reports overflow. */
  lemma NeverCompletes(fx: Shader, d: nat, area: Rect, surface: Surface, env: Env, fuel: nat)
    requires Process(NeverComplete(fx), d, area, surface, env, fuel).Ok?
    ensures var t := Process(NeverComplete(fx), d, area, surface, env, fuel).value;
            t.overflow.None? && t.node.NeverComplete? && !Done(t.node)
  {
  }

  /** With-duration: the cap alone decides the overflow, whatever the child
      does, and a spent cap finishes the effect. */
  lemma TemporaryCaps(fx: Shader, cap: T.EffectTimer, d: nat, area: Rect, surface: Surface, env: Env, fuel: nat)
    requires Process(Temporary(fx, cap), d, area, surface, env, fuel).Ok?
    ensures var t := Process(Temporary(fx, cap), d, area, surface, env, fuel).value;
            t.overflow == T.Process(cap, d).overflow && (t.overflow.Some? ==> Done(t.node))
  {
  }

  /** Offscreen: the child paints on the render target, at its own area or
      else the target's, and nothing is reported as overflow. */
  lemma OffscreenRendersToTarget(fx: Shader, target: BufferRef, d: nat, area: Rect, surface: Surface, env: Env,
                                 fuel: nat)
    requires fuel > 0
    requires Process(Offscreen(fx, target), d, area, surface, env, fuel).Ok?
    ensures Process(fx, d, target.area, Target(target), env, fuel - 1).Ok?
    ensures var t := Process(Offscreen(fx, target), d, area, surface, env, fuel).value;
            var c := Process(fx, d, target.area, Target(target), env, fuel - 1).value;
            t.overflow.None? && t.node == Offscreen(c.node, target) && t.paints == c.paints
  {
  }

  /** Resize: the first area seen is kept as the target; the child is
      re-targeted to, and processed at, a rectangle centred inside it. */
  lemma ResizeStaysInside(child: Option<Shader>, a: Option<Rect>, origin: Option<Rect>, initial: Size,
                          t: T.EffectTimer, d: nat, area: Rect, surface: Surface, env: Env, fuel: nat)
    requires fuel > 0
    requires Process(Resize(child, a, origin, initial, t), d, area, surface, env, fuel).Ok?
    ensures var n := Process(Resize(child, a, origin, initial, t), d, area, surface, env, fuel).value.node;
            var target := origin.GetOr(a.GetOr(area));
            && n.Resize? && n.origin == Some(target) && n.area.Some?
            && target.x <= n.area.value.x && n.area.value.x + n.area.value.width <= target.x + target.width
            && target.y <= n.area.value.y && n.area.value.y + n.area.value.height <= target.y + target.height
            && n.area.value.width <= target.width && n.area.value.height <= target.height
  {
    assert Process(Resize(child, a, origin, initial, t), d, area, surface, env, fuel)
        == StepResize(child, origin, initial, t, d, a.GetOr(area), surface, env, fuel - 1);
  }

  /** Translate over a zero-width area does nothing at all. */
  lemma TranslateZeroWidth(s: Shader, d: nat, area: Rect, surface: Surface, env: Env, fuel: nat)
    requires s.Translate? && fuel > 0 && s.area.GetOr(area).width == 0
    requires s.child.None? || AreaOf(s.child.value).None?
    ensures Process(s, d, area, surface, env, fuel) == Ok(Tick(s, None, []))
  {
    assert Process(s, d, area, surface, env, fuel)
        == StepTranslate(s, s.child, s.origin, s.shift, s.lifetime, d, s.area.GetOr(area), surface, env, fuel - 1);
  }

  /** A glitch tick, for an environment whose glitch frame follows the
      glitch model: the frame runs at the node's own area (else the
      caller's) with the population target of that area; it panics with
      `gen_range`'s message when topping up draws from an empty range; a
      frame that completes keeps the running glitches of the scheduled
      population, reports no overflow, and never finishes the effect. */
  lemma GlitchTick(s: Shader, d: nat, area: Rect, surface: Surface, env: Env, fuel: nat)
    requires s.Glitch? && fuel > 0 && GlitchFrameFollows(env)
    ensures var at := s.area.GetOr(area);
            var sched := Glitches.Scheduled(s.glitches, d, at, env.population(at, s.ratio),
                                            SurfaceArea(surface, env).Area(), s.timing);
            var r := Process(s, d, area, surface, env, fuel);
            && (sched.None? ==> r == Err(Panic(Glitches.EMPTY_RANGE)))
            && (r.Ok? ==> sched.Some?
                          && r.value == Tick(s.(glitches := Glitches.Survivors(sched.value)), None, [Glitched(at, surface)])
                          && !Done(r.value.node))
  {
    var at := s.area.GetOr(area);
    var target := env.population(at, s.ratio);
    assert GlitchFrameFollowsAt(env.glitch(s.glitches, s.timing, target, s.selection, d, at, surface),
                                Glitches.Scheduled(s.glitches, d, at, target, SurfaceArea(surface, env).Area(), s.timing));
  }

  /** A resize tick, for any tick: the first area seen becomes the target;
      the size is lerped with the alpha read before the timer advances;
      the child, if any, is moved to the centred area and processed there.
      Without a child the timer's overflow is reported; with one, the
      lesser overflow when both report one, and None otherwise. */
  lemma ResizeTick(child: Option<Shader>, a: Option<Rect>, origin: Option<Rect>, initial: Size,
                   t: T.EffectTimer, d: nat, area: Rect, surface: Surface, env: Env, fuel: nat)
    requires fuel > 0
    ensures var target := origin.GetOr(a.GetOr(area));
            var alpha := T.Alpha(t, env.ease);
            var w := Interp.LerpU16(initial.width, target.width, alpha);
            var h := Interp.LerpU16(initial.height, target.height, alpha);
            var p := T.Process(t, d);
            var r := Process(Resize(child, a, origin, initial, t), d, area, surface, env, fuel);
            && (!RectExt.InnerCenteredDefined(target, w, h) ==> r == Err(Panic(ADD_OVERFLOW)))
            && (RectExt.InnerCenteredDefined(target, w, h) ==>
                var resized := RectExt.InnerCentered(target, w, h);
                && (child.None? ==>
                      r == Ok(Tick(Resize(None, Some(resized), Some(target), initial, p.timer), p.overflow, [])))
                && (child.Some? ==>
                      var c := Process(SetArea(child.value, resized), d, resized, surface, env, fuel - 1);
                      && (c.Err? ==> r == Err(c.error))
                      && (c.Ok? ==> r == Ok(Tick(Resize(Some(c.value.node), Some(resized), Some(target), initial, p.timer),
                                                 if p.overflow.Some? && c.value.overflow.Some?
                                                 then Some(Min(p.overflow.value, c.value.overflow.value)) else None,
                                                 c.value.paints)))))
  {
    assert Process(Resize(child, a, origin, initial, t), d, area, surface, env, fuel)
        == StepResize(child, origin, initial, t, d, a.GetOr(area), surface, env, fuel - 1);
  }

  /** A resize with a forward linear timer that has not started renders its
      first frame at the initial size, however long the tick: the alpha is
      read before the timer advances. */
  lemma ResizeFirstFrameInitial(child: Option<Shader>, a: Option<Rect>, origin: Option<Rect>, initial: Size,
                                t: T.EffectTimer, d: nat, area: Rect, surface: Surface, env: Env, fuel: nat)
    requires fuel > 0 && t.Valid() && t.interpolation == Interp.Linear && t.total != 0
    requires !t.reverse && !t.Started()
    ensures var target := origin.GetOr(a.GetOr(area));
            var r := Process(Resize(child, a, origin, initial, t), d, area, surface, env, fuel);
            RectExt.InnerCenteredDefined(target, initial.width, initial.height) && r.Ok? ==>
              r.value.node.Resize? && r.value.node.area == Some(RectExt.InnerCentered(target, initial.width, initial.height))
  {
    var target := origin.GetOr(a.GetOr(area));
    T.LinearAlphaRange(t, env.ease);
    Interp.LerpEndpoints(initial.width, target.width, 0, 0, 0.0, 0.0, 0, 0);
    Interp.LerpEndpoints(initial.height, target.height, 0, 0, 0.0, 0.0, 0, 0);
    ResizeTick(child, a, origin, initial, t, d, area, surface, env, fuel);
  }

  /** A translate tick over an area of non-zero width, for any tick: the
      first area seen becomes the origin; the lifetime advances first and
      its alpha lerps the shift, added to the origin and clamped at 0; the
      child is processed at that area, and whatever it returns, the
      overflow is the lifetime's. */
  lemma TranslateTick(s: Shader, d: nat, area: Rect, surface: Surface, env: Env, fuel: nat)
    requires s.Translate? && fuel > 0 && AreaOf(s).GetOr(area).width != 0
    ensures var orig := s.origin.GetOr(AreaOf(s).GetOr(area));
            var p := T.Process(s.lifetime, d);
            var alpha := T.Alpha(p.timer, env.ease);
            var x := WrapI16(orig.x) + Interp.LerpI16(0, s.shift.0, alpha);
            var y := WrapI16(orig.y) + Interp.LerpI16(0, s.shift.1, alpha);
            var lerped := orig.(x := Max(x, 0), y := Max(y, 0));
            var r := Process(s, d, area, surface, env, fuel);
            && (!(-0x8000 <= x < 0x8000 && -0x8000 <= y < 0x8000) ==> r == Err(Panic(ADD_OVERFLOW)))
            && (-0x8000 <= x < 0x8000 && -0x8000 <= y < 0x8000 ==>
                && (s.child.None? ==>
                      r == Ok(Tick(Translate(None, Some(lerped), Some(orig), s.shift, p.timer), p.overflow, [])))
                && (s.child.Some? ==>
                      var c := Process(SetArea(s.child.value, lerped), d, lerped, surface, env, fuel - 1);
                      && (c.Err? ==> r == Err(c.error))
                      && (c.Ok? ==> r == Ok(Tick(Translate(Some(c.value.node), Some(lerped), Some(orig), s.shift, p.timer),
                                                 p.overflow, c.value.paints)))))
  {
    assert Process(s, d, area, surface, env, fuel)
        == StepTranslate(s, s.child, s.origin, s.shift, s.lifetime, d, AreaOf(s).GetOr(area), surface, env, fuel - 1);
  }

  /** Repeat for a duration, for a u32 tick past the cap: the reported
      overflow `d' + (tick − cap)` adds the child's overflow d', at most the
      cap, to what exceeds the cap, so it is at most the tick and the u32
      `Duration` addition never overflows. */
  lemma RepeatForDurationFitsU32(fx: Shader, cap: nat, original: RepeatMode, d: nat, area: Rect,
                                 surface: Surface, env: Env, fuel: nat)
    requires fuel > 0 && cap < d < U32_LIMIT
    requires Process(Repeat(fx, ForDuration(cap), original), d, area, surface, env, fuel).Ok?
    ensures var c := Process(fx, cap, AreaOf(fx).GetOr(area), surface, env, fuel - 1);
            var r := Process(Repeat(fx, ForDuration(cap), original), d, area, surface, env, fuel).value;
            && c.Ok? && r.overflow.Some?
            && (c.value.overflow.Some? ==>
                  Durations.AddMillis(Durations.FromMillis(c.value.overflow.value), d - cap)
                    == Ok(Durations.FromMillis(r.overflow.value)))
            && (c.value.overflow.None? ==> r.overflow == Some(d - cap))
  {
    assert Process(Repeat(fx, ForDuration(cap), original), d, area, surface, env, fuel)
        == StepRepeat(fx, ForDuration(cap), original, d, AreaOf(fx).GetOr(area), surface, env, fuel - 1);
  }

  /** Prolong at the start, for any tick: the padding takes the tick first
      and the inner effect gets exactly the padding's overflow (zero while
      the padding has time left); the inner effect's result is reported. */
  lemma ProlongStartFeedsOverflow(inner: Shader, pad: T.EffectTimer, d: nat, area: Rect, surface: Surface, env: Env,
                                  fuel: nat)
    requires fuel > 0
    requires Process(inner, T.Process(pad, d).overflow.GetOr(0), AreaOf(inner).GetOr(area), surface, env, fuel - 1).Ok?
    ensures var p := T.Process(pad, d);
            var c := Process(inner, p.overflow.GetOr(0), AreaOf(inner).GetOr(area), surface, env, fuel - 1).value;
            Process(Prolong(inner, pad, Start), d, area, surface, env, fuel)
              == Ok(Tick(Prolong(c.node, p.timer, Start), c.overflow, c.paints))
  {
    var a := AreaOf(inner).GetOr(area);
    assert Process(Prolong(inner, pad, Start), d, area, surface, env, fuel)
        == StepProlong(inner, pad, Start, d, a, surface, env, fuel - 1);
  }

  /** Repeat for a duration, with a tick within the time left: the child
      gets the whole tick and the time left shrinks by it; a child that
      completes is reset and its overflow reported while the repeat keeps
      running. */
  lemma RepeatWithinDuration(fx: Shader, cap: nat, original: RepeatMode, d: nat, area: Rect, surface: Surface,
                             env: Env, fuel: nat)
    requires fuel > 0 && d <= cap
    requires Process(Repeat(fx, ForDuration(cap), original), d, area, surface, env, fuel).Ok?
    ensures Process(fx, d, AreaOf(fx).GetOr(area), surface, env, fuel - 1).Ok?
    ensures var t := Process(Repeat(fx, ForDuration(cap), original), d, area, surface, env, fuel).value;
            var c := Process(fx, d, AreaOf(fx).GetOr(area), surface, env, fuel - 1).value;
            && t.node.Repeat? && t.node.mode == ForDuration(cap - d) && t.overflow == c.overflow
            && (c.overflow.Some? ==> Shaders.Reset(c.node) == Ok(t.node.fx))
            && (c.overflow.Some? && d < cap ==> !Done(t.node))
  {
    ProcessRepeat(fx, ForDuration(cap), original, d, area, surface, env, fuel);
  }

  /** A user function runs after the timer advanced: its context carries
      the tick and the advanced timer, and the timer's overflow is reported
      whatever the function does. */
  lemma ShaderFnTick(s: Shader, d: nat, area: Rect, surface: Surface, env: Env, fuel: nat)
    requires s.ShaderFn? && fuel > 0
    ensures var r := Process(s, d, area, surface, env, fuel);
            var p := T.Process(s.timer, d);
            var ctx := Context(d, p.timer, s.area.GetOr(area), s.fnFilter);
            && r.Ok? && r.value.overflow == p.overflow && r.value.paints == [Invoked(s.code, ctx, surface)]
            && r.value.node == ShaderFn(s.name, s.code, env.code(s.code, s.userState, ctx), s.originalState,
                                        p.timer, s.fnFilter, s.area)
            && (Done(r.value.node) <==> p.timer.Done())
  {
  }

  /** Translating an auxiliary buffer: before the first tick of a linear
      timer the content sits at (0, 0), or already at the full shift when
      the timer is reversed. */
  lemma TranslateBufferStart(aux: BufferRef, shiftBy: Offset, ms: nat, reversed: bool, env: Env)
    requires ms > 0
    ensures var t := T.EffectTimer(ms, ms, Interp.Linear, reversed);
            var alpha := T.Alpha(T.Process(t, 0).timer, env.ease);
            Interp.LerpOffset(Offset(0, 0), shiftBy, alpha)
              == if reversed then (shiftBy.x, shiftBy.y) else (0, 0)
  {
    var t := T.EffectTimer(ms, ms, Interp.Linear, reversed);
    T.ProcessZero(t);
    T.LinearAlphaRange(t, env.ease);
    Interp.LerpOffsetEndpoints(Offset(0, 0), shiftBy);
  }

  /** Translating an auxiliary buffer: once the linear timer has run out,
      the content sits at the full shift (at (0, 0) when reversed). */
  lemma TranslateBufferEnd(aux: BufferRef, shiftBy: Offset, t: T.EffectTimer, d: nat, env: Env)
    requires t.interpolation == Interp.Linear && t.total > 0 && d >= t.remaining
    ensures var alpha := T.Alpha(T.Process(t, d).timer, env.ease);
            Interp.LerpOffset(Offset(0, 0), shiftBy, alpha)
              == if t.reverse then (0, 0) else (shiftBy.x, shiftBy.y)
  {
    Interp.LerpOffsetEndpoints(Offset(0, 0), shiftBy);
  }

  /** Effects without a reset of their own and without a timer panic on
      reset, as does Translate, whose timer access is unimplemented, and a
      user function built without a snapshot of its state. */
  lemma ResetPanics(s: Shader)
    requires s.Offscreen? || s.Translate? || (s.ShaderFn? && s.originalState.None?)
    ensures Shaders.Reset(s).Err? && Shaders.Reset(s).error.Panic?
    ensures s.Translate? ==> CellSelection(s).Err?
  {
  }

  /** The effects that are not reached by reverse, area or selection
      changes: reverse is a no-op where no timer is exposed, and the
      timer-only leaves have no area and ignore area and selection. */
  lemma InertOperations(s: Shader, a: Rect, f: CellFilter)
    ensures s.Repeat? || s.Prolong? || s.Offscreen? || s.ShaderFn? || s.Glitch? || s.ConsumeTick?
            ==> Reverse(s) == s
    ensures s.Sleep? || s.ConsumeTick? || s.TranslateBuffer?
            ==> SetArea(s, a) == s && SetCellSelection(s, f) == s && AreaOf(s).None? && CellSelection(s) == Ok(None)
    ensures s.Offscreen? ==> AreaOf(s).Some?
    ensures s.PingPong? ==> SetCellSelection(s, f).fx == s.fx && CellSelection(SetCellSelection(s, f)) == Ok(Some(f))
    ensures s.Temporary? ==> Reverse(s).fx == s.fx && Reverse(s).cap == T.Reversed(s.cap)
  {
  }

  /** A parallel group with no children is done; a sequence is done exactly
      when its cursor is past the last child. */
  lemma ContainerDone(fxs: seq<Shader>, current: nat)
    ensures Done(Parallel([]))
    ensures Done(Parallel(fxs)) <==> forall i | 0 <= i < |fxs| :: Done(fxs[i])
    ensures Done(Sequential(fxs, current)) <==> current >= |fxs|
  {
  }

  /** The durations a sequence's `timer()` sums: those of the children
      that have a timer, in order. */
  function PresentDurations(ts: seq<Option<T.EffectTimer>>): (r: seq<Durations.Duration>)
    requires forall i | 0 <= i < |ts| && ts[i].Some? :: ts[i].value.total < U32_LIMIT
    ensures |r| <= |ts|
  {
    if |ts| == 0 then []
    else PresentDurations(ts[..|ts| - 1])
         + (if ts[|ts| - 1].Some? then [Durations.FromMillis(ts[|ts| - 1].value.total)] else [])
  }

  /** For children whose durations fit a u32, the u32 `Sum` of a sequence's
      timers is the model's total when that fits a u32, and the overflow
      panic exactly when it does not. */
  lemma {:induction false} TotalDurationIsSum(ts: seq<Option<T.EffectTimer>>)
    requires forall i | 0 <= i < |ts| && ts[i].Some? :: ts[i].value.total < U32_LIMIT
    ensures Durations.Total(PresentDurations(ts)) == TotalDuration(ts)
    ensures Durations.Sum(PresentDurations(ts))
         == if TotalDuration(ts) < U32_LIMIT then Ok(Durations.FromMillis(TotalDuration(ts)))
            else Err(Durations.Overflow)
  {
    if |ts| > 0 {
      var init := ts[..|ts| - 1];
      assert forall i | 0 <= i < |init| :: init[i] == ts[i];
      TotalDurationIsSum(init);
      var last := if ts[|ts| - 1].Some? then [Durations.FromMillis(ts[|ts| - 1].value.total)] else [];
      Durations.TotalAppend(PresentDurations(init), last);
      assert Durations.Total(last) == (if ts[|ts| - 1].Some? then ts[|ts| - 1].value.total else 0);
    }
    Durations.SumIsTotal(PresentDurations(ts));
  }

  /** The diagnostic timer of a parallel group lasts as long as its
      longest child's; that of a sequence as long as its children's
      together, and there is none when that sum is zero. */
  lemma ContainerTimers(fxs: seq<Shader>, current: nat)
    ensures TimerOf(Parallel(fxs)).Some? ==>
              forall i | 0 <= i < |fxs| && TimerOf(fxs[i]).Some? :: TimerOf(fxs[i]).value.total <= TimerOf(Parallel(fxs)).value.total
    ensures TimerOf(Parallel(fxs)).None? <==> forall i | 0 <= i < |fxs| :: TimerOf(fxs[i]).None?
    ensures TimerOf(Sequential(fxs, current)).Some? ==>
              TimerOf(Sequential(fxs, current)).value.total
                == TotalDuration(seq(|fxs|, i requires 0 <= i < |fxs| => TimerOf(fxs[i]))) > 0
  {
    var ts := seq(|fxs|, i requires 0 <= i < |fxs| => TimerOf(fxs[i]));
    assert forall i | 0 <= i < |fxs| :: ts[i] == TimerOf(fxs[i]);
  }

  /** Two linear 100 ms and 200 ms fades in sequence report a 300 ms
      timer, in parallel a 200 ms one. */
  lemma ContainerTimerExample(kind: PainterKind, f: CellFilter)
    ensures var a := Painter(kind, T.New(100, Interp.Linear), None, f);
            var b := Painter(kind, T.New(200, Interp.Linear), None, f);
            && TimerOf(Sequential([a, b], 0)) == Some(T.New(300, Interp.Linear))
            && TimerOf(Parallel([a, b])) == Some(T.New(200, Interp.Linear))
  {
    var a := Painter(kind, T.New(100, Interp.Linear), None, f);
    var b := Painter(kind, T.New(200, Interp.Linear), None, f);
    var ts := seq(2, i requires 0 <= i < 2 => TimerOf([a, b][i]));
    assert ts == [Some(T.New(100, Interp.Linear)), Some(T.New(200, Interp.Linear))];
    assert ts[..1] == [Some(T.New(100, Interp.Linear))];
    assert ts[..1][..0] == [];
    assert LongestDuration(ts[..1]) == Some(100);
    assert TotalDuration(ts[..1]) == 100;
  }

  /** The diagnostic timers of the wrappers: a count of repeats scales the
      child's, a duration repeat is that long, a ping-pong lasts twice the
      child, and a prolonged effect the padding plus the inner effect. */
  lemma WrapperTimers(s: Shader)
    ensures s.Repeat? && s.mode.Times? && TimerOf(s.fx).Some? ==>
              TimerOf(s) == Some(T.Scale(TimerOf(s.fx).value, s.mode.n))
    ensures s.Repeat? && s.mode.ForDuration? ==> TimerOf(s).value.total == s.mode.ms
    ensures s.PingPong? && TimerOf(s.fx).Some? ==> TimerOf(s).value.total == 2 * TimerOf(s.fx).value.total
    ensures s.Prolong? ==> TimerOf(s).value.total == s.pad.total + (if TimerOf(s.inner).Some? then TimerOf(s.inner).value.total else 0)
  {
  }
}
