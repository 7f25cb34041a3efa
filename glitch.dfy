/** The glitch effect: a population of scheduled per-cell glitches, each
    sleeping for a while, then mutating its cell's symbol on every frame
    until its active time runs out. */
module Glitches {
  import opened Wrappers
  import opened Terminal
  import opened SimpleRngs
  import opened CellFilters

  type i8 = x: int | -0x80 <= x < 0x80

  /** The message of `gen_range`'s assert on an empty range. */
  const EMPTY_RANGE: string := "range.end must be greater than range.start"

  /** `GlitchType`: swap the ASCII case, or shift the symbol's byte. */
  datatype GlitchType = ChangeCase | ChangeCharByValue(v: i8)

  /** `GlitchCell`: the buffer index it targets, its remaining active time,
      its remaining sleep before it starts, and what it does. */
  datatype GlitchCell = GlitchCell(cellIdx: nat, glitchRemaining: nat, presleepRemaining: nat, glitch: GlitchType)

  // ---------------------------------------------------------------- countdowns

  /** `update_cell`: the tick first drains the sleep; only what exceeds the
      sleep drains the active time; both stop at zero. Hence the total time
      left drops by the tick (down to zero) and a cell still asleep keeps
      its whole active time. */
  function UpdateCell(c: GlitchCell, tick: nat): (r: GlitchCell)
    ensures r.cellIdx == c.cellIdx && r.glitch == c.glitch
    ensures r.presleepRemaining + r.glitchRemaining
         == Max(c.presleepRemaining + c.glitchRemaining - tick, 0)
    ensures r.presleepRemaining > 0 ==> r.glitchRemaining == c.glitchRemaining
    ensures r.presleepRemaining <= c.presleepRemaining && r.glitchRemaining <= c.glitchRemaining
  {
    var sleep := c.presleepRemaining;
    c.(presleepRemaining := Max(sleep - tick, 0),
       glitchRemaining := Max(c.glitchRemaining - Max(tick - sleep, 0), 0))
  }

  /** Two frames drain a glitch exactly as one frame of their summed length. */
  lemma UpdateCellAdditive(c: GlitchCell, a: nat, b: nat)
    ensures UpdateCell(UpdateCell(c, a), b) == UpdateCell(c, a + b)
  {
  }

  /** `is_running`. */
  predicate IsRunning(c: GlitchCell) { c.glitchRemaining > 0 }

  /** The two conditions the population is filtered by. */
  datatype Keep = IndexBelow(bound: nat) | Running

  predicate Keeps(k: Keep, c: GlitchCell) {
    match k
    case IndexBelow(bound) => c.cellIdx < bound
    case Running => IsRunning(c)
  }

  /** `Vec::retain`: the elements that pass, in their order. */
  function Retain(cs: seq<GlitchCell>, k: Keep): (r: seq<GlitchCell>)
    ensures |r| <= |cs|
    ensures forall c :: c in r <==> c in cs && Keeps(k, c)
  {
    if cs == [] then []
    else if Keeps(k, cs[0]) then [cs[0]] + Retain(cs[1..], k)
    else Retain(cs[1..], k)
  }

  /** The update loop applied to the whole population. */
  function UpdateAll(cs: seq<GlitchCell>, tick: nat): (r: seq<GlitchCell>)
    ensures |r| == |cs| && forall i :: 0 <= i < |cs| ==> r[i] == UpdateCell(cs[i], tick)
  {
    seq(|cs|, i requires 0 <= i < |cs| => UpdateCell(cs[i], tick))
  }

  // ---------------------------------------------------------------- population

  /** The glitch configuration: the ranges the sleep and the active time
      are drawn from. */
  datatype Timing = Timing(delay: (u32, u32), action: (u32, u32)) {
    /** Both ranges are non-empty, as `gen_range` demands. */
    predicate NonEmpty() { delay.0 < delay.1 && action.0 < action.1 }
  }

  /** `glitch_type`: one draw picks the kind by parity; a byte shift takes
      a second draw for its value in [-10, 10). Returns the kind and the
      generator's new state. */
  function DrawGlitchType(st: u32): (r: (GlitchType, u32))
    ensures r.0.ChangeCase? <==> Next(st) % 2 == 0
    ensures r.0.ChangeCharByValue? ==> -10 <= r.0.v < 10
    ensures r.1 == if Next(st) % 2 == 0 then Next(st) else Next(Next(st))
  {
    var idx := Next(st);
    if idx % 2 == 0 then (ChangeCase, idx)
    else
      var v := SampleChecked(Next(idx), 0, 20).value;
      (ChangeCharByValue(-10 + v), Next(idx))
  }

  /** A glitch as `ensure_population` builds it for an area of n cells. */
  predicate WellFormed(c: GlitchCell, n: nat, timing: Timing) {
    c.cellIdx < n
    && timing.delay.0 <= c.presleepRemaining < timing.delay.1
    && timing.action.0 <= c.glitchRemaining < timing.action.1
    && (c.glitch.ChangeCharByValue? ==> -10 <= c.glitch.v < 10)
  }

  /** One new glitch, drawn in the builder's order: the index (two draws),
      the kind, the active time, the sleep. A draw from an empty range is
      the `gen_range` panic (None): an area of no cells, or an empty
      action or delay range, which the builder does not reject. */
  function NewGlitch(st: u32, n: nat, timing: Timing): (r: Option<(GlitchCell, u32)>)
    ensures r.Some? <==> 0 < n && timing.NonEmpty()
    ensures r.Some? ==> WellFormed(r.value.0, n, timing)
    ensures r.Some? ==> r.value.1 == Next(Next(DrawGlitchType(Next(Next(st))).1))
  {
    var idx :- SampleChecked(DrawUsize(st), 0, n);
    var (kind, s1) := DrawGlitchType(Next(Next(st)));
    var active :- SampleChecked(Next(s1), timing.action.0, timing.action.1);
    var sleep :- SampleChecked(Next(Next(s1)), timing.delay.0, timing.delay.1);
    Some((GlitchCell(idx, active, sleep, kind), Next(Next(s1))))
  }

  /** The loop of `ensure_population` with k turns left: each turn appends
      one new glitch; a panicking draw panics the loop. */
  function Populate(cs: seq<GlitchCell>, k: nat, st: u32, n: nat, timing: Timing): (r: Option<(seq<GlitchCell>, u32)>)
    decreases k
  {
    if k == 0 then Some((cs, st))
    else
      var g :- NewGlitch(st, n, timing);
      Populate(cs + [g.0], k - 1, g.1, n, timing)
  }

  /** Populating panics exactly when it has a glitch to draw and a range to
      draw from is empty. Otherwise it keeps the existing glitches, appends
      exactly k new ones, and every new one targets a cell of the area with
      its times drawn from the configured ranges. */
  lemma {:induction false} PopulateShape(cs: seq<GlitchCell>, k: nat, st: u32, n: nat, timing: Timing)
    ensures Populate(cs, k, st, n, timing).Some? <==> k == 0 || (0 < n && timing.NonEmpty())
    ensures Populate(cs, k, st, n, timing).Some? ==>
      var r := Populate(cs, k, st, n, timing).value.0;
      |r| == |cs| + k && r[..|cs|] == cs
      && forall i :: |cs| <= i < |r| ==> WellFormed(r[i], n, timing)
    decreases k
  {
    if k > 0 && 0 < n && timing.NonEmpty() {
      var g := NewGlitch(st, n, timing).value;
      PopulateShape(cs + [g.0], k - 1, g.1, n, timing);
      var r := Populate(cs + [g.0], k - 1, g.1, n, timing).value.0;
      assert r[..|cs| + 1][..|cs|] == r[..|cs|];
    }
  }

  /** The number of cells `ensure_population` draws an index from, as
      written: `width * height` evaluated in u16, which wraps (or, with
      overflow checks on, panics) for areas of more than 65535 cells. */
  function CellCountAsWritten(area: Rect): u16 {
    (area.width * area.height) % 0x1_0000
  }

  /** The number of cells `ensure_population` evidently means to draw an
      index from: every cell of the area. */
  function CellCount(area: Rect): (n: nat)
    ensures n == area.width * area.height && n < USIZE_LIMIT
  {
    MulLe(area.width, 0xFFFF, area.height);
    MulLe(area.height, 0xFFFF, 0xFFFF);
    area.Area()
  }

  /** A 256x256 area has 65536 cells, but the u16 product wraps to 0, so the
      index is drawn from an empty range and `gen_range` panics; with the
      full count the draw succeeds. A 300x300 area draws only from its first
      24464 cells. */
  lemma LargeAreaCountWraps(g: nat)
    ensures CellCountAsWritten(Rect(0, 0, 256, 256)) == 0
    ensures SampleChecked(g, 0, CellCountAsWritten(Rect(0, 0, 256, 256))) == None
    ensures SampleChecked(g, 0, CellCount(Rect(0, 0, 256, 256))).Some?
    ensures CellCountAsWritten(Rect(0, 0, 300, 300)) == 24464 < CellCount(Rect(0, 0, 300, 300))
  {
  }

  // ---------------------------------------------------------------- mutations

  predicate IsAscii(s: string) {
    forall i :: 0 <= i < |s| ==> s[i] < 128 as char
  }

  /** `to_ascii_lowercase` of an upper-case letter, `to_ascii_uppercase`
      of anything else. */
  function SwapCase(ch: char): char {
    if 'A' <= ch <= 'Z' then (ch as int + 32) as char
    else if 'a' <= ch <= 'z' then (ch as int - 32) as char
    else ch
  }

  /** Swapping the case twice restores the character; letters change case
      and everything else is left alone. */
  lemma SwapCaseInvolution(ch: char)
    ensures SwapCase(SwapCase(ch)) == ch
    ensures 'A' <= ch <= 'Z' ==> 'a' <= SwapCase(ch) <= 'z'
    ensures 'a' <= ch <= 'z' ==> 'A' <= SwapCase(ch) <= 'Z'
    ensures !('A' <= ch <= 'Z' || 'a' <= ch <= 'z') ==> SwapCase(ch) == ch
  {
  }

  /** A byte shifted by v: `saturating_add` for v > 0, `saturating_sub` of
      |v| otherwise, then clamped to [32, 255]. In every case this is b + v
      kept within [32, 255]. */
  function ShiftByte(b: u8, v: i8): (r: u8)
    ensures 32 <= r && (32 <= b + v <= 255 ==> r == b + v)
    ensures b + v < 32 ==> r == 32
    ensures b + v > 255 ==> r == 255
  {
    var magnitude: int := if v > 0 then v else 0 - (v as int);
    var raw := if v > 0 then Min(b + v, 255) else Max(b - magnitude, 0);
    Max(raw, 32)
  }

  /** The mutation of one selected cell. Only the symbol changes. ChangeCase
      applies to ASCII symbols and swaps the case of the first character
      (an empty symbol panics when it is read); ChangeCharByValue applies to
      one-byte symbols other than a space. */
  function Mutate(g: GlitchType, c: Cell): (r: Option<Cell>)
    ensures r.None? <==> g.ChangeCase? && c.symbol == []
    ensures r.Some? ==> r.value.fg == c.fg && r.value.bg == c.bg
    ensures r.Some? && r.value.symbol != c.symbol ==>
      |r.value.symbol| == 1 && |c.symbol| >= 1 && IsAscii(c.symbol[..1])
    ensures g.ChangeCharByValue? && |c.symbol| == 1 && c.symbol[0] != ' ' && c.symbol[0] < 128 as char ==>
      r.Some? && 32 <= r.value.symbol[0] as int <= 255
  {
    match g
    case ChangeCase =>
      if !IsAscii(c.symbol) then Some(c)
      else if c.symbol == [] then None
      else Some(c.(symbol := [SwapCase(c.symbol[0])]))
    case ChangeCharByValue(v) =>
      if |c.symbol| == 1 && c.symbol[0] < 128 as char then
        if c.symbol[0] == ' ' then Some(c)
        else Some(c.(symbol := [ShiftByte(c.symbol[0] as int, v) as char]))
      else Some(c)
  }

  // ---------------------------------------------------------------- applying

  /** The position a glitch targets in an area: column index mod width,
      row index div width (the row truncated to u16). None is a panic: a
      zero width divides by zero, a coordinate past u16 overflows. */
  function TargetPos(e: GlitchCell, area: Rect): (r: Option<Position>)
    ensures r.Some? ==> (area.width > 0
      && r.value.x == area.x + e.cellIdx % area.width
      && r.value.y == area.y + (e.cellIdx / area.width) % 0x1_0000)
  {
    if area.width == 0 then None
    else
      var x := e.cellIdx % area.width;
      var y := (e.cellIdx / area.width) % 0x1_0000;
      if area.x + x > U16_MAX || area.y + y > U16_MAX then None
      else Some(Position(area.x + x, area.y + y))
  }

  /** Whether applying e may write buffer index j: e is awake and targets
      the cell at j. */
  predicate Writes(e: GlitchCell, area: Rect, bufArea: Rect, j: nat) {
    e.presleepRemaining == 0 && TargetPos(e, area).Some?
    && bufArea.Contains(TargetPos(e, area).value)
    && IndexOf(bufArea, TargetPos(e, area).value) == j
  }

  /** One glitch applied to the buffer content: sleeping glitches do
      nothing; an awake one fetches its cell (a cell outside the buffer
      panics), and mutates it if the selector accepts it. */
  function ApplyGlitch(e: GlitchCell, area: Rect, bufArea: Rect, content: seq<Cell>,
                       sel: CellSelector, o: Oracles): (r: Option<seq<Cell>>)
    requires |content| == bufArea.Area()
    ensures r.Some? ==> |r.value| == |content|
    ensures r.Some? ==> forall j :: 0 <= j < |content| && !Writes(e, area, bufArea, j) ==>
      r.value[j] == content[j]
  {
    if e.presleepRemaining != 0 then Some(content)
    else
      var pos :- TargetPos(e, area);
      if !bufArea.Contains(pos) then None
      else
        var k := IndexOf(bufArea, pos);
        var selected :- IsValid(sel, pos, content[k], o);
        if !selected then Some(content)
        else
          var c :- Mutate(e.glitch, content[k]);
          Some(content[k := c])
  }

  /** The glitches applied in order. */
  function ApplyAll(es: seq<GlitchCell>, area: Rect, bufArea: Rect, content: seq<Cell>,
                    sel: CellSelector, o: Oracles): (r: Option<seq<Cell>>)
    requires |content| == bufArea.Area()
    ensures r.Some? ==> |r.value| == |content|
    decreases |es|
  {
    if es == [] then Some(content)
    else
      var prev :- ApplyAll(es[..|es| - 1], area, bufArea, content, sel, o);
      ApplyGlitch(es[|es| - 1], area, bufArea, prev, sel, o)
  }

  /** Applying the glitches changes no cell that no awake glitch targets. */
  lemma {:induction false} ApplyAllFrame(es: seq<GlitchCell>, area: Rect, bufArea: Rect,
                                         content: seq<Cell>, sel: CellSelector, o: Oracles, j: nat)
    requires |content| == bufArea.Area() && j < |content|
    requires ApplyAll(es, area, bufArea, content, sel, o).Some?
    requires forall i :: 0 <= i < |es| ==> !Writes(es[i], area, bufArea, j)
    ensures ApplyAll(es, area, bufArea, content, sel, o).value[j] == content[j]
    decreases |es|
  {
    if es != [] {
      var init := es[..|es| - 1];
      assert forall i :: 0 <= i < |init| ==> init[i] == es[i];
      ApplyAllFrame(init, area, bufArea, content, sel, o, j);
      assert !Writes(es[|es| - 1], area, bufArea, j);
    }
  }

  /** A panic at the k-th glitch panics the whole application. */
  lemma {:induction false} ApplyAllStops(es: seq<GlitchCell>, k: nat, area: Rect, bufArea: Rect,
                                         content: seq<Cell>, sel: CellSelector, o: Oracles)
    requires |content| == bufArea.Area() && 0 < k <= |es|
    requires ApplyAll(es[..k], area, bufArea, content, sel, o).None?
    ensures ApplyAll(es, area, bufArea, content, sel, o).None?
    decreases |es| - k
  {
    if k < |es| {
      assert es[..k + 1][..k] == es[..k];
      ApplyAllStops(es, k + 1, area, bufArea, content, sel, o);
    } else {
      assert es[..k] == es;
    }
  }

  // ---------------------------------------------------------------- a frame

  /** The state a glitch keeps across frames. */
  datatype GlitchState = GlitchState(cells: seq<GlitchCell>, rngState: u32)

  /** The population after one frame's bookkeeping, before any cell is
      touched: topped up to the target, drained by the tick, and stripped
      of glitches whose index lies past the buffer's length. None is the
      panic of a draw from an empty range, which needs a glitch to draw. */
  function Scheduled(s: GlitchState, tick: nat, area: Rect, target: nat, bufLen: nat,
                     timing: Timing): (r: Option<GlitchState>)
    ensures r.Some? <==> target <= |s.cells| || (area.Area() > 0 && timing.NonEmpty())
    ensures r.Some? ==> forall c :: c in r.value.cells ==> c.cellIdx < bufLen
  {
    PopulateShape(s.cells, Max(target - |s.cells|, 0), s.rngState, CellCount(area), timing);
    var (grown, st) :- Populate(s.cells, Max(target - |s.cells|, 0), s.rngState, CellCount(area), timing);
    var kept := Retain(UpdateAll(grown, tick), IndexBelow(bufLen));
    Some(GlitchState(kept, st))
  }

  /** `Glitch::process` on values: the new state and buffer content, or a
      panic. The effect itself always reports None (it never finishes). */
  function ProcessGlitch(s: GlitchState, tick: nat, area: Rect, target: nat, bufArea: Rect,
                         content: seq<Cell>, selection: CellFilter, o: Oracles,
                         timing: Timing): (r: Option<(GlitchState, seq<Cell>)>)
    requires |content| == bufArea.Area()
    ensures r.Some? ==> Scheduled(s, tick, area, target, |content|, timing).Some?
    ensures r.Some? ==> |r.value.1| == |content|
    ensures r.Some? ==> forall c :: c in r.value.0.cells ==> IsRunning(c) && c.cellIdx < |content|
  {
    var sched :- Scheduled(s, tick, area, target, |content|, timing);
    var sel :- Selector(selection, area, o);
    var content' :- ApplyAll(sched.cells, area, bufArea, content, sel, o);
    Some((Survivors(sched), content'))
  }

  /** The population a completed frame keeps: the scheduled glitches
      still running, with the generator's state after the top-up. */
  function Survivors(sched: GlitchState): (r: GlitchState)
    ensures r.rngState == sched.rngState
    ensures forall c :: c in r.cells <==> c in sched.cells && IsRunning(c)
  {
    GlitchState(Retain(sched.cells, Running), sched.rngState)
  }

  /** A frame panics whenever its bookkeeping does, and a completed frame
      leaves exactly the survivors of the scheduled population: the part
      of a frame that does not depend on the buffer. */
  lemma ProcessGlitchFollowsSchedule(s: GlitchState, tick: nat, area: Rect, target: nat, bufArea: Rect,
                                     content: seq<Cell>, selection: CellFilter, o: Oracles, timing: Timing)
    requires |content| == bufArea.Area()
    ensures var sched := Scheduled(s, tick, area, target, |content|, timing);
            var r := ProcessGlitch(s, tick, area, target, bufArea, content, selection, o, timing);
            && (sched.None? ==> r.None?)
            && (r.Some? ==> sched.Some? && r.value.0 == Survivors(sched.value))
  {
  }

  /** A population at or above its target draws nothing, so it never
      panics, whatever the ranges; below the target it grows to it, every
      new glitch well formed, when the area has cells and both ranges are
      non-empty. */
  lemma ScheduledGrows(s: GlitchState, area: Rect, target: nat, timing: Timing)
    ensures target <= |s.cells| ==>
      Populate(s.cells, Max(target - |s.cells|, 0), s.rngState, CellCount(area), timing) == Some((s.cells, s.rngState))
    ensures target > |s.cells| && area.Area() > 0 && timing.NonEmpty() ==>
      var r := Populate(s.cells, Max(target - |s.cells|, 0), s.rngState, CellCount(area), timing);
      r.Some? && |r.value.0| == target
      && forall i :: |s.cells| <= i < |r.value.0| ==> WellFormed(r.value.0[i], area.Area(), timing)
  {
    PopulateShape(s.cells, Max(target - |s.cells|, 0), s.rngState, CellCount(area), timing);
  }

  /** The glitch effect. */
  class Glitch {
    const rng: SimpleRng
    const timing: Timing
    var selection: CellFilter
    var cells: seq<GlitchCell>
    var area: Option<Rect>

    /** The builder: no glitches yet; the selection defaults to All. */
    constructor (rng: SimpleRng, timing: Timing, area: Option<Rect>)
      ensures this.rng == rng && this.timing == timing && this.area == area
      ensures cells == [] && selection == CellFilter.All
    {
      this.rng := rng;
      this.timing := timing;
      this.area := area;
      cells := [];
      selection := CellFilter.All;
    }

    /** `done`: a glitch never finishes. */
    predicate Done() { false }

    /** `reset`: forget every scheduled glitch. */
    method Reset()
      modifies this
      ensures cells == [] && selection == old(selection) && area == old(area)
    {
      cells := [];
    }

    /** `set_area`. */
    method SetArea(a: Rect)
      modifies this
      ensures area == Some(a) && cells == old(cells) && selection == old(selection)
    {
      area := Some(a);
    }

    /** `set_cell_selection`; `cell_selection` reads it back as Some. */
    method SetCellSelection(f: CellFilter)
      modifies this
      ensures selection == f && cells == old(cells) && area == old(area)
    {
      selection := f;
    }

    /** `glitch_type`. */
    method DrawType() returns (g: GlitchType)
      modifies rng
      ensures (g, rng.state) == DrawGlitchType(old(rng.state))
    {
      var idx := rng.Gen();
      if idx % 2 == 0 {
        g := ChangeCase;
      } else {
        var v := rng.GenRangeI32(0, 20);
        g := ChangeCharByValue(-10 + v.value);
      }
    }

    /** `ensure_population`: append glitches until there are `target` of
      them (the target is the rounded product of the area's size and the
      glitch ratio). False is the panic of a draw from an empty range. */
    method EnsurePopulation(screen: Rect, target: nat) returns (ok: bool)
      modifies this, rng
      ensures var spec := Populate(old(cells), Max(target - |old(cells)|, 0), old(rng.state), CellCount(screen), timing);
        (ok <==> spec.Some?) && (ok ==> (cells, rng.state) == spec.value)
      ensures selection == old(selection) && area == old(area)
    {
      var current := |cells|;
      if current < target {
        ghost var spec := Populate(cells, target - current, rng.state, CellCount(screen), timing);
        for i := 0 to target - current
          invariant Populate(cells, target - current - i, rng.state, CellCount(screen), timing) == spec
          invariant selection == old(selection) && area == old(area)
        {
          ghost var st := rng.state;
          var idx := rng.GenRangeUsize(0, CellCount(screen));
          if idx.None? {
            return false;
          }
          var kind := DrawType();
          var active := rng.GenRangeU32(timing.action.0, timing.action.1);
          if active.None? {
            return false;
          }
          var sleep := rng.GenRangeU32(timing.delay.0, timing.delay.1);
          if sleep.None? {
            return false;
          }
          assert NewGlitch(st, CellCount(screen), timing)
              == Some((GlitchCell(idx.value, active.value, sleep.value, kind), rng.state));
          cells := cells + [GlitchCell(idx.value, active.value, sleep.value, kind)];
        }
      }
      ok := true;
    }

    /** `Glitch::process`: schedule, drain, drop out-of-buffer glitches,
        mutate the cells of the awake and selected ones, drop the expired
        ones. The result is always None; a panic is reported as Err. */
    method Process(tick: nat, buf: Buffer, screen: Rect, target: nat, o: Oracles)
      returns (r: Result<Option<nat>, string>)
      requires buf.Valid()
      modifies this, rng, buf.content
      ensures var spec := ProcessGlitch(GlitchState(old(cells), old(rng.state)), tick, screen, target,
                                        buf.area, old(buf.content[..]), selection, o, timing);
        (r.Ok? <==> spec.Some?)
        && (r.Ok? ==> r.value == None
                      && GlitchState(cells, rng.state) == spec.value.0 && buf.content[..] == spec.value.1)
      ensures selection == old(selection) && area == old(area)
    {
      var grown := EnsurePopulation(screen, target);
      if !grown {
        return Err(EMPTY_RANGE);
      }
      UpdateCells(tick);
      cells := Retain(cells, IndexBelow(buf.content.Length));
      var sel := Selector(selection, screen, o);
      if sel.None? {
        return Err("layout index out of range");
      }
      var ok := ApplyCells(screen, buf, sel.value, o);
      if !ok {
        return Err("glitch cell panicked");
      }
      cells := Retain(cells, Running);
      r := Ok(None);
    }

    /** The update loop: drain every glitch by the frame's length. */
    method UpdateCells(tick: nat)
      modifies this
      ensures cells == UpdateAll(old(cells), tick)
      ensures selection == old(selection) && area == old(area)
    {
      var i := 0;
      while i < |cells|
        invariant 0 <= i <= |cells| == |old(cells)|
        invariant forall j :: 0 <= j < i ==> cells[j] == UpdateCell(old(cells)[j], tick)
        invariant forall j :: i <= j < |cells| ==> cells[j] == old(cells)[j]
        invariant selection == old(selection) && area == old(area)
      {
        cells := cells[i := UpdateCell(cells[i], tick)];
        i := i + 1;
      }
    }

    /** The apply loop: every glitch in order against the buffer; false is
        a panic. */
    method ApplyCells(screen: Rect, buf: Buffer, sel: CellSelector, o: Oracles) returns (ok: bool)
      requires buf.Valid()
      modifies buf.content
      ensures var spec := ApplyAll(cells, screen, buf.area, old(buf.content[..]), sel, o);
        (ok <==> spec.Some?) && (ok ==> buf.content[..] == spec.value)
    {
      var i := 0;
      while i < |cells|
        invariant 0 <= i <= |cells|
        invariant ApplyAll(cells[..i], screen, buf.area, old(buf.content[..]), sel, o) == Some(buf.content[..])
      {
        assert cells[..i + 1][..i] == cells[..i];
        ok := ApplyOne(cells[i], screen, buf, sel, o);
        if !ok {
          ApplyAllStops(cells, i + 1, screen, buf.area, old(buf.content[..]), sel, o);
          return;
        }
        i := i + 1;
      }
      assert cells[..|cells|] == cells;
      ok := true;
    }

    /** The body of the apply loop for one glitch. */
    method ApplyOne(e: GlitchCell, screen: Rect, buf: Buffer, sel: CellSelector, o: Oracles) returns (ok: bool)
      requires buf.Valid()
      modifies buf.content
      ensures var spec := ApplyGlitch(e, screen, buf.area, old(buf.content[..]), sel, o);
        (ok <==> spec.Some?) && (ok ==> buf.content[..] == spec.value)
    {
      if e.presleepRemaining != 0 {
        return true;
      }
      var pos := TargetPos(e, screen);
      if pos.None? {
        return false;
      }
      var cell := buf.Get(pos.value);
      if cell.None? {
        return false;
      }
      var selected := IsValid(sel, pos.value, cell.value, o);
      if selected.None? {
        return false;
      }
      if !selected.value {
        return true;
      }
      var mutated := Mutate(e.glitch, cell.value);
      if mutated.None? {
        return false;
      }
      buf.content[IndexOf(buf.area, pos.value)] := mutated.value;
      return true;
    }
  }
}
