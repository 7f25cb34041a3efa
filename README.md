# tachyonfx: the effect engine, modelled in Dafny

tachyonfx is a Rust library of terminal effects for ratatui. An effect is a
`Shader`: it owns an `EffectTimer`, it is processed once per frame with the
time elapsed since the last frame, it rewrites the cells of a ratatui
`Buffer` inside its area, and it returns the part of the tick it did not need
(its overflow). Effects compose: `sequence`, `parallel`, `repeat`,
`ping_pong`, `prolong_start`/`prolong_end`, `never_complete`,
`with_duration`, `resize_area`, `translate`, `translate_buf` and
`offscreen_buffer` wrap other effects and decide how a tick's time budget is
shared among their children.

This project models that engine and the small algorithms around it, and
proves what the library promises about them.

- **Time.** The u32 millisecond `Duration` has checked arithmetic
  (`durations.dfy`). `EffectTimer` conserves time: the time consumed plus
  the overflow is the tick, and `remaining` stays within `total`
  (`effect_timer.dfy`). The `Interpolation` dispatch table, `tween` and the
  `lerp` family are in `interpolation.dfy`.
- **The effect tree.** Every shader is one node of a closed datatype
  (`shader_tree.dfy`). `Process` maps a node and a tick to the advanced node,
  its overflow and the ordered list of paints it performed. Library panics
  become `Err(Panic(..))`. The laws of each combinator are lemmas in
  `shader_laws.dfy`:
  - the budget rules of sequence and parallel;
  - the repeat modes;
  - the two prolong positions;
  - the ping-pong phases;
  - done, reset and reverse.

  The `Effect` facade is a class whose methods update the boxed node, and
  which runs the sequential and parallel loops as `while` loops proved equal
  to the tree functions (`effect.dfy`). The constructors and name identities
  of `fx::*` are in `fx_mod.dfy`.
- **Cells.** The `CellFilter` selection algebra and its `to_string` are in
  `cell_filter.dfy`. The row-major `CellIterator` is in `cell_iter.dfy`. The
  clipping copy `blit_buffer` writes into an array-backed buffer
  (`buffer_renderer.dfy`, `terminal.dfy`). `inner_centered` is in
  `rect_ext.dfy`. The per-cell rules of fade, sweep and slide visit a
  buffer in place (`painters.dfy`).
- **State machines.** These are:
  - the `SimpleRng` linear congruential generator, its bounded samplers and
    the Fisher–Yates `shuffle` (`simple_rng.dfy`);
  - `DirectionalVariance` (`direction.dfy`);
  - the one-entry `ColorMapper` cache (`color_mapper.dfy`);
  - the glitch scheduler (`glitch.dfy`).
- **Diagnostics.** The `EffectSpan` pre-order iterator and its tree printer
  are in `effect_span.dfy`. The filter, area and colour registries are in
  `cell_filter_registry.dfy`, `area_registry.dfy` and `color_registry.dfy`;
  they are built on the sorting and formatting helpers of `sorting.dfy` and
  `format.dfy`.

All time in the effect tree is a whole number of milliseconds (`nat`);
only `durations.dfy` carries the u32 bound of `Duration` and its overflow
panic. Lemmas tie the tree's time arithmetic to it: a repeat's capped
overflow never leaves u32, and the diagnostic sum and product of timers
panic exactly when their nat value reaches 2^32 (the cases "## Left out"
names). Elsewhere, where the library works on fixed-width integers, the
wrap-around or the overflow panic is written out: the LCG modulo 2^32, the
i16 variance, the u16 glitch cell count and the u16 `blit_buffer`
arithmetic.

The library revision this model follows is not internally consistent. Where the
documented behaviour and the code disagree, the model follows the code and gives
the missing pieces their evident meaning:
- `EffectTimer::reset` sets `remaining` back to `total`;
- `duration()` is `total`;
- `is_reversed()` is the reverse flag;
- `timer * n` scales `total` by n.

These are used in `src/shader.rs:181`, `src/fx/containers.rs:89` and
`src/fx/repeat.rs:112`, but `src/effect_timer.rs` does not define them.
Other differences the model resolves the same way:
- `CellIterator::new` is called with a cell filter (`src/shader.rs:83`),
  but its definition takes only the buffer and the area
  (`src/cell_iter.rs:11`). The model follows the definition and visits
  every cell of the area.
- `DirectionalVariance` samples an i16 range that `SimpleRng` does not
  implement. The model samples it as an i32 range.
- The names of `sleep`, `consume_tick` and `translate` are not defined in
  the library revision this model follows. The model names them "sleep", "consume_tick" and
  "translate".

## Model

| member | source | states |
|---|---|---|
| Durations.FromSecs | src/duration.rs:26-28 | from_secs(s) has s·1000 ms; a product past u32 is an overflow error |
| Durations.Compare | src/duration.rs:14-17 | the derived order: equal, less and greater exactly as the millisecond counts compare |
| Durations.CheckedSub | src/duration.rs:46-50 | Some exactly when b ≤ a, and then the difference, whose sum with b gives a back |
| Durations.Add | src/duration.rs:61-67 | a + b has a.ms + b.ms milliseconds; a sum past u32 is an overflow error |
| Durations.AddMillis | src/duration.rs:69-75 | adding a raw u32 count, with the same overflow error |
| Durations.Sub | src/duration.rs:89-95 | a − b is defined exactly when b ≤ a and then has a.ms − b.ms milliseconds |
| Durations.SubMillis | src/duration.rs:97-103 | subtracting a raw u32 count, defined exactly when it does not underflow |
| Durations.Mul | src/duration.rs:53-59 | d·n scales the millisecond count; a product past u32 is an overflow error |
| Durations.MulLeft | src/duration.rs:117-123 | n·d is the same operation as d·n |
| Durations.SubUndoesAdd | src/duration.rs:156-173 | subtraction, checked or not, undoes an addition that did not overflow |
| Durations.CheckedSubAgreesWithSub | src/duration.rs:203-208 | checked_sub succeeds exactly when `-` does, with the same value |
| Durations.FromSecsIsScaledSecond | src/duration.rs:26-28 | from_secs(s) equals from_millis(1000)·s |
| Durations.ZeroIsZero | src/duration.rs:20-40 | ZERO is zero, and a duration is zero exactly when it equals ZERO |
| Durations.SumFromIsTotal | src/duration.rs:133-137 | folding Add from an accumulator gives the accumulator plus the total, or an overflow error |
| Durations.SumIsTotal | src/duration.rs:133-137 | the empty sum is ZERO; any sum is the total of the parts unless that overflows |
| Durations.TotalAppend | src/duration.rs:133-137 | the total of two sequences laid end to end is the sum of their totals |
| Durations.SumExample | src/duration.rs:181-188 | 100 + 200 + 300 ms sum to 600 ms |
| EffectTimers.New | src/effect_timer.rs:20-30 | remaining = total = the duration, forward, not started; done exactly for a zero duration |
| EffectTimers.FromMs | src/effect_timer.rs:13-18 | from_ms is new with the same interpolation |
| EffectTimers.FromDuration | src/effect_timer.rs:69-91 | the From conversions build a linear timer of that length |
| EffectTimers.Reversed | src/effect_timer.rs:32-34 | toggles the reverse flag and nothing else |
| EffectTimers.ReversedIsInvolution | src/effect_timer.rs:32-34 | reversing twice restores the timer; reversing once always changes it |
| EffectTimers.Alpha | src/effect_timer.rs:40-51 | 1 for a zero total; otherwise the easing of 1 − remaining/total, or of remaining/total when reversed |
| EffectTimers.LinearAlphaRange | src/effect_timer.rs:40-51 | a linear alpha lies in [0, 1], starts at 0 (1 reversed) and ends at 1 (0 reversed) |
| EffectTimers.Process | src/effect_timer.rs:53-62 | a tick within the remaining time is subtracted with no overflow; a longer one empties the timer and returns the excess |
| EffectTimers.ProcessConserves | src/effect_timer.rs:53-62 | conservation: the tick equals the time consumed plus the overflow, and remaining ≤ total is kept |
| EffectTimers.ProcessZero | src/effect_timer.rs:54-56 | a zero tick changes nothing and returns None, even on a done timer |
| EffectTimers.ProcessDone | src/effect_timer.rs:57-66 | a done timer hands every non-zero tick back whole |
| EffectTimers.ProcessAdditive | src/effect_timer.rs:53-62 | two ticks where the first is absorbed equal one tick of their sum |
| EffectTimers.Reset | src/shader.rs:179-185 | reset rewinds remaining to total, keeping interpolation and direction |
| EffectTimers.ResetAfterProcess | src/shader.rs:179-185 | a reset after any tick gives the same timer as a reset before it |
| EffectTimers.Scale | src/fx/repeat.rs:110-114 | timer·n scales total and remaining by n and keeps a valid timer valid |
| EffectTimers.ScaleIsDurationMul | src/fx/repeat.rs:112 | for a u32 duration, the u32 `Duration * n` panics exactly when the scaled total reaches 2^32, and otherwise equals it |
| Interpolation.Alpha | src/interpolation.rs:56-102 | Linear is the identity; every other curve is its easing function |
| Interpolation.DispatchTable | src/interpolation.rs:32-33 | Linear is the default; CubicOut and CubicInOut dispatch to circ_out and circ_in_out, and those are the only shared entries |
| Interpolation.RoundIsNearest | src/interpolation.rs:121-126 | round gives an integer within one half of its argument |
| Interpolation.RoundOfInteger | src/interpolation.rs:121-126 | round leaves an integer unchanged |
| Interpolation.LerpColor | src/interpolation.rs:164-169 | alpha exactly 0 gives the colour itself, exactly 1 the target |
| Interpolation.LerpOptionColor | src/interpolation.rs:181-190 | both Some: their lerp; exactly one Some: that colour; both None: None |
| Interpolation.TweenIsLerpOfAlpha | src/interpolation.rs:109-111 | tween is lerp at the eased alpha, which for Linear is the alpha itself |
| Interpolation.LerpStyleChannels | src/interpolation.rs:150-161 | a style lerp takes fg and bg from the Option lerp and keeps the other attributes |
| Interpolation.LerpEndpoints | src/interpolation.rs:120-148 | the u16, i16, i32 and f32 lerps return the start at 0 and the target at 1 |
| Interpolation.LerpOffsetEndpoints | src/interpolation.rs:192-199 | the Offset lerp is component-wise, hence at the endpoints the endpoints |
| Interpolation.LerpI32Between | src/interpolation.rs:144-148 | for alpha in [0, 1] the i32 lerp stays between its ends |
| Interpolation.ScaleBetween | src/interpolation.rs:139-141 | a scaled magnitude k·alpha lies in [0, k] and its negation in [−k, 0] |
| Interpolation.RoundMonotone | src/interpolation.rs:121-126 | round is monotone |
| RectExt.InnerCentered | src/rect_ext.rs:31-35 | width and height are clamped to the rect's; the result lies inside it; the left gap is half the slack, rounded down, so the right gap exceeds it by at most 1 |
| RectExt.InnerCenteredIdempotent | src/rect_ext.rs:31-35 | centring the result again gives the result |
| RectExt.InnerCenteredExample | src/rect_ext.rs:22-25 | the documented 100×100 → (25, 25, 50, 50) |
| CellFilters.SizeSeqElement | src/cell_filter.rs:149-154 | each filter of a combinator is smaller than the combinator, so the recursive evaluation terminates |
| CellFilters.HexOfStandardColors | src/cell_filter.rs:64-67 | `#rrggbb` with two lower-case hex digits per channel: red is "#800000", green "#008000" |
| CellFilters.LeafToStringExamples | src/cell_filter.rs:209-254 | the leaf filters print as fg(..), bg(..), inner(h:v), outer(h:v), text, layout(idx), position_fn and cell_fn |
| CellFilters.PairToString | src/cell_filter.rs:73-78 | the sub-filters of a combinator are joined with ", " |
| CellFilters.AllOfToStringExample | src/cell_filter.rs:226-230 | all_of wraps the joined sub-filters |
| CellFilters.AnyOfToStringExample | src/cell_filter.rs:232-236 | any_of wraps the joined sub-filters |
| CellFilters.NoneOfToStringExample | src/cell_filter.rs:238-242 | none_of wraps the joined sub-filters |
| CellFilters.NotToStringExample | src/cell_filter.rs:244-245 | Not prefixes "!" |
| CellFilters.ResolveArea | src/cell_filter.rs:110-126 | Inner and Outer shrink the area by the margin; Layout takes the idx-th split and is None (the index panic) past the last one; Not resolves its operand; every other filter keeps the area |
| CellFilters.Selector | src/cell_filter.rs:103-108 | a selector exists exactly when the area resolves, and holds the resolved area and the filter |
| CellFilters.IsValid | src/cell_filter.rs:128-133 | a cell is selected exactly when both its position and its content pass; a rejected position rejects the cell whatever its content |
| CellFilters.InnerOuterComplement | src/cell_filter.rs:144-147 | Inner and Outer with the same margin resolve to the same area and select complementary positions |
| CellFilters.NotNegatesContentOnly | src/cell_filter.rs:119-189 | Not keeps its operand's area and position test and negates only the content test |
| CellFilters.NotAllSelectsNothing | src/cell_filter.rs:119-189 | Not(All) and Not(Inner) select no cell at all, since the negated content test accepts nothing |
| CellFilters.ContentTestAcceptsAll | src/cell_filter.rs:193 | the filters without a content test accept every cell content |
| CellFilters.ColorAndPositionFnTests | src/cell_filter.rs:158-187 | FgColor and BgColor compare the cell's colour; PositionFn's position test is the closure alone |
| CellFilters.AllOfIsConjunction | src/cell_filter.rs:149-150 | AllOf's position test is the conjunction of its members' tests, each against the selector of the inner area |
| CellFilters.AnyOfIsDisjunction | src/cell_filter.rs:151-152 | AnyOf's position test is the disjunction |
| CellFilters.NoneOfIsNoneOf | src/cell_filter.rs:153-154 | NoneOf's position test holds when no member's does |
| CellFilters.AllOfContentIsConjunction | src/cell_filter.rs:181-184 | AllOf's content test is the conjunction of its members' content tests |
| CellFilters.TextExamples | src/cell_filter.rs:172-179 | text is a one-byte symbol that is alphanumeric, a space or one of ?!.,:; |
| CellIterators.StepAt | src/cell_iter.rs:28-43 | step i yields while i < the area's size: a position inside the area whose row-major index is i, with its buffer index; a position outside the buffer is the `get_mut` panic |
| CellIterators.RowMajorOrder | src/cell_iter.rs:15-22 | step i is at column i mod width and row i div width of the area |
| CellIterators.ItemsDistinct | src/cell_iter.rs:15-22 | two different steps yield different positions and different buffer cells, so the mutable borrows never alias |
| CellIterators.ItemsCoverArea | src/cell_iter.rs:28-43 | every position of the area that lies in the buffer is yielded, at step IndexOf(area, p) |
| CellIterators.NoPanicInsideBuffer | src/cell_iter.rs:28-43 | an area inside the buffer never panics, and an empty area finishes at once |
| CellIterators.CellIterator.constructor | src/cell_iter.rs:11-13 | a fresh iterator starts at 0 over the given buffer and area |
| CellIterators.CellIterator.Next | src/cell_iter.rs:28-44 | next returns the step at the current counter and advances the counter only when it yields |
| BufferRenderer.AxisClip | src/buffer_renderer.rs:59-72 | along one axis, the clip start minus the left clip is the offset, and neither clip is negative |
| BufferRenderer.SourceOf | src/buffer_renderer.rs:80-90 | a copied target cell reads the source cell at the target position minus the offset, which lies in the source |
| BufferRenderer.BlitBuffer | src/buffer_renderer.rs:54-93 | every target cell covered by the shifted, clipped source holds the source cell under it; every other target cell is unchanged |
| BufferRenderer.BlitCell | src/buffer_renderer.rs:82-90 | one loop step copies exactly the cell (x, y) of the source and leaves the rest of the target as it was |
| BufferRenderer.OriginBlit | src/buffer_renderer.rs:50-53 | with both buffers at the origin, a target cell is copied exactly when target minus offset lies in the source |
| BufferRenderer.OffscreenCopiesNothing | src/buffer_renderer.rs:50-51 | a source placed wholly outside the target copies nothing |
| BufferRenderer.NegativeOffsetExample | src/buffer_renderer.rs:158-172 | offset (−1, −2) copies a 3×2 block, the target's origin receiving the source cell (1, 2) |
| BufferRenderer.LargerSourceExample | src/buffer_renderer.rs:188-212 | a larger source at offset 0 fills the whole target with its own top-left cells |
| SimpleRngs.NextIsAffine | src/simple_rng.rs:39-42 | the wrapping multiply-then-add is one affine step s·A + C modulo 2^32 |
| SimpleRngs.PrevUndoesNext | src/simple_rng.rs:39-42 | the step is invertible: multiplying by the inverse of A after subtracting C restores the state |
| SimpleRngs.NextInjective | src/simple_rng.rs:155-162 | different states step to different states, so different seeds give different first draws |
| SimpleRngs.SampleChecked | src/simple_rng.rs:80-114 | the intended sampler: a value exists exactly when start < end, lies in [start, end) and is start plus the draw modulo the range size |
| SimpleRngs.UnsignedSampleAgrees | src/simple_rng.rs:80-96 | on a non-empty range the u32 and usize code as written computes the intended sample |
| SimpleRngs.ReversedU32RangePassesAssert | src/simple_rng.rs:80-87 | the range 20..10 wraps to a non-zero size, passes the assert and yields 1013904243, outside the range |
| SimpleRngs.I32SampleAgrees | src/simple_rng.rs:107-114 | on a non-empty i32 range narrower than 2^31 the code as written computes the intended sample |
| SimpleRngs.WideI32RangePanics | src/simple_rng.rs:107-114 | the non-empty range −2·10^9..2·10^9 has a wrapped negative size, so the assert panics for every draw |
| SimpleRngs.SimpleRng.constructor | src/simple_rng.rs:28-30 | the state is the seed |
| SimpleRngs.SimpleRng.Gen | src/simple_rng.rs:39-42 | the state advances one step and the new state is returned |
| SimpleRngs.SimpleRng.GenUsize | src/simple_rng.rs:59-62 | two steps, the first draw as the high 32 bits and the second as the low |
| SimpleRngs.SimpleRng.GenRangeU32 | src/simple_rng.rs:80-87 | the intended sample of one draw, the state advancing once; an empty range panics without drawing |
| SimpleRngs.SimpleRng.GenRangeUsize | src/simple_rng.rs:89-96 | the intended sample of a 64-bit draw, the state advancing twice |
| SimpleRngs.SimpleRng.GenRangeI32 | src/simple_rng.rs:107-114 | the intended sample of one draw for an i32 range |
| SimpleRngs.SwapPermutes | src/simple_rng.rs:120 | a swap keeps the length and the multiset of elements |
| SimpleRngs.ShufflePermutes | src/simple_rng.rs:116-122 | the shuffle from any index keeps the length and the multiset of elements |
| SimpleRngs.Shuffle | src/simple_rng.rs:116-122 | the array and the generator end as the reference shuffle says, and the array is a permutation of what it was |
| SimpleRngs.ShuffleTurn | src/simple_rng.rs:118-121 | one turn draws j from i..len and swaps, leaving the rest of the reference shuffle to do |
| SimpleRngs.ShuffleStep | src/simple_rng.rs:118-121 | the drawn index is in range, and swapping at i then shuffling from i + 1 is the shuffle from i |
| ColorMappers.ColorMapper.constructor | src/color_mapper.rs:6-10 | the derived default: key (Reset, 0.0), cached colour Reset |
| ColorMappers.ColorMapper.Map | src/color_mapper.rs:37-49 | a repeated key returns the cached colour without calling the transform; a new key calls it once and caches key and result; a cache that agrees with the transform stays so and always answers like it |
| ColorMappers.DefaultKeyHit | src/color_mapper.rs:43-48 | on a fresh mapper the key (Reset, 0.0) returns Reset whatever the transform |
| Directions.Flipped | src/fx/direction.rs:13-20 | flipping keeps the axis |
| Directions.FlippedInvolution | src/fx/direction.rs:13-24 | flipping twice restores the direction, never fixes it, and toggles flips_timer |
| Directions.VarianceSeed | src/fx/direction.rs:55 | the seed holds the width in the high 16 bits and the height in the low 16 |
| Directions.VarianceSeedInjective | src/fx/direction.rs:55 | areas of different size seed different generators |
| Directions.Variance | src/fx/direction.rs:71-83 | max 0 gives (0, 0) without a draw; a negative max (a u16 above 32767 cast to i16) is the empty-range panic; otherwise the magnitude is the draw modulo max |
| Directions.VarianceShape | src/fx/direction.rs:61-83 | a positive max moves along the direction's axis only, by less than max, negative exactly for the directions that flip the timer |
| Directions.DirectionalVariance.constructor | src/fx/direction.rs:49-59 | a fresh generator seeded from the area's size, the direction, and max cast to i16 |
| Directions.DirectionalVariance.Next | src/fx/direction.rs:71-83 | returns the variance of the current state, drawing once exactly when max > 0 |
| Glitches.UpdateCell | src/fx/glitch.rs:68-74 | the tick drains the sleep first and only the excess drains the active time; the total left drops by the tick, down to zero |
| Glitches.UpdateCellAdditive | src/fx/glitch.rs:68-74 | two ticks equal one tick of their sum |
| Glitches.Retain | src/fx/glitch.rs:109 | `retain` keeps exactly the elements that pass the predicate |
| Glitches.UpdateAll | src/fx/glitch.rs:106 | every glitch is updated by the same tick, in place |
| Glitches.DrawGlitchType | src/fx/glitch.rs:80-87 | an even draw is ChangeCase; an odd one draws again for a shift in [−10, 10) |
| Glitches.NewGlitch | src/fx/glitch.rs:57-62 | a new glitch panics exactly when the area has no cells or a timing range is empty; otherwise it targets a cell of the area and has an active time and a sleep from their ranges |
| Glitches.PopulateShape | src/fx/glitch.rs:55-65 | topping up panics exactly when a glitch is missing and a range is empty; otherwise it appends exactly the missing glitches after the existing ones, each well formed |
| Glitches.CellCount | src/fx/glitch.rs:58 | the intended cell count is width·height, the whole area |
| Glitches.LargeAreaCountWraps | src/fx/glitch.rs:58 | the u16 product wraps: 256×256 gives 0 and an empty-range panic, 300×300 draws only from the first 24464 cells |
| Glitches.SwapCaseInvolution | src/fx/glitch.rs:125-132 | swapping the ASCII case twice restores the character and leaves non-letters alone |
| Glitches.ShiftByte | src/fx/glitch.rs:138-146 | the shifted byte saturates and is clamped to [32, 255] |
| Glitches.Mutate | src/fx/glitch.rs:124-149 | only an empty symbol under ChangeCase panics; colours are kept; a changed symbol is one character from an ASCII first character; a one-byte non-space symbol is shifted into [32, 255] |
| Glitches.TargetPos | src/fx/glitch.rs:115-118 | the cell sits at column idx mod width and row idx div width (truncated to u16); a zero width or a u16 overflow panics |
| Glitches.ApplyGlitch | src/fx/glitch.rs:114-150 | applying one glitch writes at most its own target cell; a target outside the buffer panics |
| Glitches.ApplyAll | src/fx/glitch.rs:114-150 | the glitches applied in order keep the buffer's size |
| Glitches.ApplyAllFrame | src/fx/glitch.rs:114-150 | a cell no awake glitch targets is unchanged |
| Glitches.ApplyAllStops | src/fx/glitch.rs:114-150 | a panic on an earlier glitch is a panic of the whole frame |
| Glitches.Scheduled | src/fx/glitch.rs:101-109 | the frame's bookkeeping panics exactly when the population is below its target and the area is empty or a timing range is empty; otherwise every glitch left targets an index of the buffer |
| Glitches.ProcessGlitch | src/fx/glitch.rs:95-156 | a frame panics whenever its bookkeeping does; after a frame the buffer keeps its size and every surviving glitch is running and targets the buffer |
| Glitches.ScheduledGrows | src/fx/glitch.rs:47-66 | a population at its target draws nothing, so any ranges are accepted; one below it grows to exactly the target, every new glitch well formed |
| Glitches.Glitch.constructor | src/fx/glitch.rs:29-44 | no glitches yet, the default selection, the given generator, timing and area |
| Glitches.Glitch.Reset | src/fx/glitch.rs:186-188 | reset clears the population and keeps the rest |
| Glitches.Glitch.SetArea | src/fx/glitch.rs:172-174 | sets the area only |
| Glitches.Glitch.SetCellSelection | src/fx/glitch.rs:176-178 | sets the selection only |
| Glitches.Glitch.DrawType | src/fx/glitch.rs:80-87 | the drawn type and the generator's new state are those of the reference draw |
| Glitches.Glitch.EnsurePopulation | src/fx/glitch.rs:47-66 | panics exactly when the reference top-up does; otherwise the population and generator end as it says |
| Glitches.Glitch.Process | src/fx/glitch.rs:95-156 | succeeds exactly when the reference frame does, returning None and leaving the population, the generator and the buffer as it says |
| Glitches.Survivors | src/fx/glitch.rs:153 | the glitches kept after a frame are exactly the scheduled ones still running, and the generator state is the scheduled one |
| Glitches.ProcessGlitchFollowsSchedule | src/fx/glitch.rs:95-156 | a frame panics whenever the bookkeeping draw panics, and a frame that succeeds keeps exactly the running survivors of the scheduled population |
| Glitches.Glitch.UpdateCells | src/fx/glitch.rs:106 | every glitch drained by the tick |
| Glitches.Glitch.ApplyCells | src/fx/glitch.rs:114-150 | the buffer ends as the reference application of every glitch says, or the frame panics |
| Glitches.Glitch.ApplyOne | src/fx/glitch.rs:115-149 | one loop step applies one glitch as the reference says |
| Shaders.TotalDuration | src/fx/containers.rs:165-177 | the summed durations of the timers present; zero when no child has a timer |
| ShaderLaws.TotalDurationIsSum | src/fx/containers.rs:165-170 | for u32 child durations, the u32 `sum` of the present durations is the model's total, and the overflow panic exactly when that reaches 2^32 |
| Shaders.LongestDuration | src/fx/containers.rs:84-92 | None exactly when no child has a timer; otherwise the largest total among them, attained by one of them |
| Shaders.Process | src/effect.rs:98-101 | the effect's own area wins over the caller's; the overflow handed back never exceeds the tick |
| Shaders.TimedLeaf | src/shader.rs:40-54 | the trait's default process: advance the timer, then take the alpha of the advanced timer |
| Shaders.Step | src/shader.rs:40-54 | every kind of node hands back at most the tick it was given |
| ShaderLaws.GlitchTick | src/fx/glitch.rs:95-156 | under a glitch frame that follows the schedule, a glitch node panics with the empty-range message when the draw is empty; a tick that succeeds keeps the node's selection, area, ratio and timing, replaces its population by the running survivors of the scheduled one, hands back no overflow and never ends |
| Shaders.SeqLoop | src/fx/containers.rs:123-134 | the loop stops only when the budget is spent or the cursor is past the end; the cursor only advances, over children that are done, and children outside the processed range are untouched |
| Shaders.ParLoop | src/fx/containers.rs:38-51 | one result per child, the ones already visited kept; the remaining budget only shrinks |
| Shaders.ParVisit | src/fx/containers.rs:40-48 | visiting one child appends exactly one result and never raises the remaining budget |
| Shaders.StepRepeat | src/fx/repeat.rs:42-79 | a repeat hands back at most the tick, so with a u32 tick the `d' + overflow` of a capped repeat stays in u32 |
| Shaders.StepProlong | src/fx/prolong.rs:45-56 | a prolonged effect hands back at most the tick |
| Shaders.StepResize | src/fx/resize.rs:38-71 | a resize hands back at most the tick; without a child exactly its timer's overflow, with one never more than the timer's, and None while the timer runs |
| Shaders.StepTranslate | src/fx/translate.rs:32-59 | over a non-zero width, the overflow is the lifetime's whatever the child returns, and the first area seen is kept as the origin |
| ShaderLaws.ReverseInvolution | src/shader.rs:132-136 | reversing any effect tree twice restores it |
| ShaderLaws.ReverseKeepsDoneAndArea | src/shader.rs:132-136 | reversing changes neither whether an effect is done nor its area |
| ShaderLaws.ReverseCommutesWithSetArea | src/effect.rs:46-83 | with_area and reversed commute |
| ShaderLaws.SetAreaIdempotent | src/effect.rs:46-50 | setting the same area twice is setting it once |
| ShaderLaws.SetAreaIsReported | src/shader.rs:108-114 | after set_area an effect reports that area or none at all, unless an offscreen buffer inside reports its own |
| ShaderLaws.SelectionIsReplaced | src/effect.rs:69-73 | an effect that reports a selection reports the new one after with_cell_selection |
| ShaderLaws.ResetIdempotent | src/shader.rs:179-185 | resetting twice is resetting once |
| ShaderLaws.ResetChildren | src/fx/containers.rs:98-100 | resetting children that are already reset changes none of them |
| ShaderLaws.ResetRestarts | src/fx/containers.rs:181-184 | reset rewinds a sequence to its first child, re-arms consume_tick, clears ping-pong's reversal and restores repeat's mode |
| ShaderLaws.DoneLeafPassesTick | src/shader.rs:46-53 | a finished timed leaf hands back every non-zero tick whole |
| ShaderLaws.ConsumeTickSwallows | src/fx/consume_tick.rs:17-29 | consume_tick takes any tick whole and is done afterwards |
| ShaderLaws.PainterTick | src/shader.rs:40-54 | a painter paints exactly once at the post-tick alpha on its area, which must lie in the buffer; the overflow is its timer's |
| ShaderLaws.SequentialTick | src/fx/containers.rs:116-135 | the cursor only advances, over finished children; earlier children are untouched; an overflow means the whole sequence is done |
| ShaderLaws.FinishedSequencePassesTick | src/fx/containers.rs:123-134 | a finished sequence hands the tick back whole and paints nothing |
| ShaderLaws.SequentialAbsorbed | src/fx/containers.rs:124-131 | when the current child absorbs the tick, only it is advanced and the cursor moves past it exactly when it finished |
| ShaderLaws.ParLoopChildren | src/fx/containers.rs:40-48 | finished children are skipped; each running child is processed with the full tick |
| ShaderLaws.ParLoopAbsorbed | src/fx/containers.rs:42-47 | the budget becomes None exactly when some running child absorbs the tick |
| ShaderLaws.ParLoopLeast | src/fx/containers.rs:44-46 | a remaining budget is at most every running child's overflow |
| ShaderLaws.ParallelTick | src/fx/containers.rs:37-52 | parallel hands every running child the whole tick and returns the least overflow, or None as soon as one child absorbs it |
| ShaderLaws.RepeatForever | src/fx/repeat.rs:44-50 | forever never overflows and never finishes; a finished child is reset |
| ShaderLaws.RepeatTimes | src/fx/repeat.rs:21-34 | Times(1) finishes on the child's overflow; Times(n > 1) resets the child and counts down; Times(0) underflows its counter and panics |
| ShaderLaws.RepeatForDuration | src/fx/repeat.rs:68-78 | a tick longer than the cap processes the child for the cap, finishes, and hands back the child's overflow plus the excess |
| ShaderLaws.RepeatForDurationFitsU32 | src/fx/repeat.rs:68-73 | for a u32 tick past the cap, the u32 addition of the child's overflow and the excess never panics and gives the reported overflow |
| ShaderLaws.RepeatWithinDuration | src/fx/repeat.rs:68-78 | a tick within the cap shortens the cap by the tick and resets a finished child |
| ShaderLaws.PingPongTurns | src/fx/ping_pong.rs:29-45 | at the end of the forward pass the child is reset and reversed and the overflow is swallowed; otherwise the child's overflow passes through |
| ShaderLaws.ProlongStartPads | src/fx/prolong.rs:47-50 | a tick within the leading pad advances the pad and processes the child with a zero tick |
| ShaderLaws.ProlongStartFeedsOverflow | src/fx/prolong.rs:47-50 | the child receives exactly what the leading pad overflowed |
| ShaderLaws.ProlongEndPads | src/fx/prolong.rs:51-55 | the trailing pad runs only on the child's overflow |
| ShaderLaws.NeverCompletes | src/fx/never_complete.rs:24-33 | never_complete never overflows and is never done |
| ShaderLaws.TemporaryCaps | src/fx/temporary.rs:27-45 | with_duration's overflow is its own timer's, and once that overflows it is done |
| ShaderLaws.OffscreenRendersToTarget | src/fx/offscreen_buffer.rs:23-40 | the child runs on the render target's own area and buffer and the tick is always absorbed |
| ShaderLaws.ResizeStaysInside | src/fx/resize.rs:38-71 | the resized area lies inside the original area and never exceeds it |
| ShaderLaws.TranslateZeroWidth | src/fx/translate.rs:32-59 | a translate over a zero-width area does nothing |
| ShaderLaws.ResizeTick | src/fx/resize.rs:38-71 | for every tick: the first area seen is the target; the size is lerped with the alpha read before the timer advances; the child is processed at the centred area; the overflow is the timer's without a child, and with one the lesser of two overflows when both exist, None otherwise |
| ShaderLaws.ResizeFirstFrameInitial | src/fx/resize.rs:50-57 | a fresh forward linear resize shows its first frame at the initial size, however long the tick |
| ShaderLaws.TranslateTick | src/fx/translate.rs:32-59 | for every tick over a non-zero width: the first area seen is the origin; x and y are the origin plus the shift lerped at the post-tick alpha, clamped at 0; the child is processed there, its result discarded, and the overflow is the lifetime's |
| ShaderLaws.ShaderFnTick | src/fx/shader_fn.rs:136-163 | a shader_fn advances its timer, calls its function once with the tick, the timer, the area and the filter, and stores the new state |
| ShaderLaws.TranslateBufferStart | src/fx/translate_buffer.rs:49-62 | at its first tick the buffer is drawn at offset 0, or at the full shift when reversed |
| ShaderLaws.TranslateBufferEnd | src/fx/translate_buffer.rs:49-62 | when the timer runs out the buffer is drawn at the full shift, or at 0 when reversed |
| ShaderLaws.ResetPanics | src/shader.rs:179-185 | offscreen_buffer, translate and a shader_fn without saved state have no reset of their own and panic; translate's cell_selection panics too |
| ShaderLaws.InertOperations | src/fx/sleep.rs:34-36 | the operations the nodes do not override: reverse leaves untimed wrappers unchanged; sleep, consume_tick and translate_buf ignore area and selection |
| ShaderLaws.ContainerDone | src/fx/containers.rs:56-58 | parallel is done when all children are (so an empty one at once); sequential when the cursor is past the end |
| ShaderLaws.ContainerTimers | src/fx/containers.rs:84-92 | parallel's timer covers its longest child and exists exactly when a child has one; sequential's is the positive sum |
| ShaderLaws.ContainerTimerExample | src/fx/containers.rs:165-177 | 100 ms then 200 ms in sequence last 300 ms; in parallel 200 ms |
| ShaderLaws.WrapperTimers | src/fx/repeat.rs:109-115 | repeat Times(n) scales the child's timer, a capped repeat lasts its cap, ping-pong doubles the child and prolong adds its pad |
| Effects.RunSequential | src/fx/containers.rs:116-135 | the `while` loop of the sequence, run on a local copy of the children, ends where the reference loop says |
| Effects.SeqTurn | src/fx/containers.rs:124-130 | one turn of the loop: the child at the cursor takes the whole remaining budget, the cursor moves on only when that child is done, and the rest of the loop continues from the new state or stops with the child's fault |
| Effects.RunParallel | src/fx/containers.rs:37-52 | the `for` loop over the running children ends where the reference loop says |
| Effects.Effect.constructor | src/effect.rs:24-28 | an effect boxes the given shader |
| Effects.Effect.Name | src/effect.rs:94-96 | the name is the boxed shader's |
| Effects.Effect.Done | src/effect.rs:107-109 | done exactly when the boxed shader is not running |
| Effects.Effect.Area | src/effect.rs:115-117 | the area is the boxed shader's |
| Effects.Effect.Clone | src/effect.rs:87-91 | a clone is a new box holding an equal shader |
| Effects.Effect.WithArea | src/effect.rs:46-50 | a new effect whose shader has the area set; the original is unchanged |
| Effects.Effect.WithCellSelection | src/effect.rs:69-73 | a new effect whose shader has the selection set |
| Effects.Effect.Reversed | src/effect.rs:79-83 | a new effect whose shader is reversed |
| Effects.Effect.SetArea | src/effect.rs:119-121 | sets the area of the boxed shader in place |
| Effects.Effect.SetCellSelection | src/effect.rs:123-125 | sets the selection of the boxed shader in place |
| Effects.Effect.Reverse | src/effect.rs:127-129 | reverses the boxed shader in place |
| Effects.Effect.Reset | src/effect.rs:143-145 | resets the boxed shader in place, or reports its panic and leaves it as it was |
| Effects.Effect.Process | src/effect.rs:98-101 | one tick advances the boxed shader as the reference tick says and returns its overflow and paints; a panic leaves the effect unchanged |
| Effects.ReversedTwice | src/effect.rs:79-83 | `reversed().reversed()` gives a new effect equal to the original |
| Fx.Fade | src/fx/mod.rs:753-769 | panics exactly when neither colour is given; otherwise a fade painter over its timer, reversed for the `from` variants, named fade_to or fade_from |
| Fx.FadeToFg | src/fx/mod.rs:572-577 | a foreground-only fade over the given timer |
| Fx.FadeFromFg | src/fx/mod.rs:580-585 | fade_from_fg is fade_to_fg reversed |
| Fx.FadeTo | src/fx/mod.rs:588-594 | a foreground and background fade over the given timer |
| Fx.FadeFrom | src/fx/mod.rs:597-603 | fade_from is fade_to reversed |
| Fx.FadesAreFade | src/fx/mod.rs:572-603 | the four public fades are the private `fade` with the matching colours and direction |
| Fx.FadeNames | src/fx/mod.rs:572-603 | fade_to and fade_from swap names under reversal |
| Fx.HslShift | src/fx/mod.rs:165-180 | panics exactly when neither change is given; otherwise an HSL painter over the timer |
| Fx.HslShiftFg | src/fx/mod.rs:184-189 | hsl_shift_fg is hsl_shift with only the foreground change |
| Fx.SweepIn | src/fx/sweep_in.rs:28-44 | a sweep painter whose timer is reversed exactly for the directions that flip it; no area, selection All |
| Fx.SweepOut | src/fx/mod.rs:214-223 | sweep_out is sweep_in of the flipped direction, reversed |
| Fx.SlideOut | src/fx/mod.rs:371-394 | a slide painter whose timer is reversed for right-to-left and down-to-up |
| Fx.SlideIn | src/fx/mod.rs:332-341 | slide_in is slide_out of the flipped direction, reversed |
| Fx.SweepSlideNames | src/fx/sweep_in.rs:48-54 | with a forward timer each constructor carries its own name, and reversal swaps in and out |
| Fx.ReversedTimerSwapsNames | src/fx/slide.rs:46-52 | a reversed timer given to sweep_in or slide_out yields the opposite name |
| Fx.Sleep | src/fx/mod.rs:618-620 | sleep holds the timer and is done exactly when it is |
| Fx.Sequence | src/fx/mod.rs:546-548 | a sequence of the effects starting at the first; done at once exactly when empty |
| Fx.Parallel | src/fx/mod.rs:552-554 | a parallel group of the effects, done when all are |
| Fx.Delay | src/fx/mod.rs:648-650 | delay is the sequence of a sleep and the effect |
| Fx.DelayHoldsBack | src/fx/mod.rs:648-650 | during the sleep a delayed effect paints nothing and absorbs the tick, moving on to the effect exactly when the sleep ends |
| Fx.Repeat | src/fx/mod.rs:197-199 | repeat keeps the mode as both current and original mode |
| Fx.Repeating | src/fx/mod.rs:207-209 | repeating is repeat forever and is never done |
| Fx.PingPong | src/fx/ping_pong.rs:15-21 | ping_pong starts forward, with selection All, and is not done |
| Fx.ProlongStart | src/fx/mod.rs:681-683 | a leading pad named prolong_start |
| Fx.ProlongEnd | src/fx/mod.rs:716-718 | a trailing pad named prolong_end |
| Fx.ConsumeTick | src/fx/mod.rs:729-731 | consume_tick starts not done |
| Fx.NeverComplete | src/fx/mod.rs:736-738 | never_complete wraps the effect and is never done |
| Fx.WithDuration | src/fx/temporary.rs:17-19 | a linear cap of the given length named with_duration, done when the cap or the effect is |
| Fx.TimedNeverComplete | src/fx/mod.rs:748-750 | with_duration around never_complete; done exactly when the duration is zero |
| Fx.Translate | src/fx/mod.rs:428-434 | translate holds the child, shift and timer, with no area and no origin yet |
| Fx.TranslateBuf | src/fx/mod.rs:453-459 | translate_buf holds the buffer, shift and timer, and reports no area |
| Fx.ResizeArea | src/fx/mod.rs:493-499 | resize_area holds the child, initial size and timer, with no area and no origin yet |
| Fx.OffscreenBuffer | src/fx/mod.rs:540-542 | offscreen_buffer reports its child's area, or else the render target's |
| Fx.EffectFn | src/fx/mod.rs:117-130 | effect_fn builds a shader_fn without a saved initial state, so its reset panics |
| Fx.EffectFnBuf | src/fx/mod.rs:149-162 | effect_fn_buf likewise, named shader_fn_buf |
| Fx.WithSnapshot | src/fx/shader_fn.rs:84-104 | the builders name the shader (default shader_fn) and save a copy of the initial state |
| Fx.SnapshotResets | src/fx/shader_fn.rs:185-188 | after any change of state, reset restores the saved state and rewinds the timer |
| Painters.CoversIffInside | src/fx/sweep_in.rs:95-99 | for an area whose far edges fit in u16, the coordinate containment test holds exactly when every position of the area is a position of the buffer, i.e. exactly when `buf.cell_mut(pos).unwrap()` cannot panic |
| Painters.ShiftPosition | src/fx/sweep_in.rs:157-162 | the shifted position exists exactly when both i16 additions stay in range (the coordinate read as i16 first); otherwise the debug-build overflow panic is None |
| Painters.ShiftClamps | src/fx/slide.rs:157-162 | a position below 32768 moves by the variance, and a coordinate that would go negative stops at 0 |
| Painters.SweepCell | src/fx/sweep_in.rs:75-92 | window alpha 0 paints fg and bg with the faded colour, 1 leaves the cell unchanged, anything else tweens both colours from the faded colour along circular-out; the symbol is never touched |
| Painters.SweepCells | src/fx/sweep_in.rs:94-118 | the sweep succeeds exactly when the area fits and lies inside the buffer; then every cell of the area is rewritten by the sweep rule at its own window alpha and every other cell is unchanged |
| Painters.SweepAt | src/fx/sweep_in.rs:97-101 | one visited cell: the shared fg/bg colour caches stay consistent with the tween, and only the cell at the position changes, by the sweep rule |
| Painters.SlideGlyph | src/fx/slide.rs:34-42 | alpha is clamped to [0, 1], scaled to an index of the shrink tables and rounded; the glyph comes from the horizontal table for left/right and the vertical table for up/down, and the index is always in range |
| Painters.SlideGlyphProgress | src/fx/slide.rs:34-42 | alpha 0 or below gives the full block, 1 or above gives a blank, and a larger alpha never picks an earlier glyph |
| Painters.SlideCell | src/fx/slide.rs:76-88 | window alpha 0 leaves the cell alone; otherwise the fg takes the old bg and the bg takes the colour behind the cell, with a blank symbol at 1 and the slide glyph in between |
| Painters.SlideCells | src/fx/slide.rs:54-120 | the slide succeeds exactly when the area fits and lies inside the buffer; then every cell of the area follows the slide rule at its window alpha and nothing outside changes |
| Painters.SlideAt | src/fx/slide.rs:73-88 | one visited cell: succeeds exactly when the position is in the buffer, and changes only that cell, by the slide rule |
| Painters.FadeCell | src/fx/fade.rs:30-40 | the symbol is kept; a colour without a target is kept; alpha 0 leaves the cell as it was and alpha 1 gives the target colours |
| Painters.FadeCells | src/fx/fade.rs:26-41 | fading succeeds exactly when the area fits inside the buffer; then each cell of the area is faded and every other cell is unchanged |
| Painters.FadeAt | src/fx/fade.rs:30-40 | one visited cell: the fg and bg colour caches stay consistent with the lerp toward the targets, and only that cell changes |
| EffectSpans.MarkLast | src/widget/effect_span.rs:92-96 | the children keep their order and count; only the last child is changed, and only to be flagged a leaf when it has no children of its own |
| EffectSpans.New | src/widget/effect_span.rs:87-114 | the span carries the effect's name, its cell selection (default all), its area, start = offset and end = offset + timer duration (offset alone without a timer), the marked children, and is not a leaf; it fails exactly when reading the cell selection fails |
| EffectSpans.NewLeafNode | src/widget/effect_span.rs:116-124 | the same span as `new`, flagged a leaf, and failing exactly when `new` fails |
| EffectSpans.SpanTimes | src/widget/effect_span.rs:98-110 | a span never ends before it starts, and a span of an effect without a timer ends where it starts |
| EffectSpans.Preorder | src/widget/effect_span.rs:147-160 | the pre-order listing of a span tree starts with the root span |
| EffectSpans.Pending | src/widget/effect_span.rs:137-139 | the spans still to be yielded from a stack are none exactly when the stack is empty |
| EffectSpans.Reversed | src/widget/effect_span.rs:153 | the children pushed onto the stack are the children in reverse order |
| EffectSpans.PushChildren | src/widget/effect_span.rs:151-155 | pushing the reversed children on top of a stack yields the children's pre-order listings first, then what the stack held before |
| EffectSpans.SpanIterator.constructor | src/widget/effect_span.rs:141-144 | a new iterator holds only the root, and what it will yield is the root's pre-order listing |
| EffectSpans.SpanIterator.Next | src/widget/effect_span.rs:150-160 | an empty stack yields None and stays empty; otherwise the next span of the pending pre-order listing is yielded and the rest remains pending |
| EffectSpans.Collect | src/widget/effect_span.rs:126-128 | collecting the iterator gives exactly the pre-order listing of the tree |
| EffectSpans.Prefix | src/widget/effect_span.rs:31-41 | one tree glyph per ancestor level: the innermost is the last-child or branch glyph, the outer ones a pipe where the level's bit is set in the indent and blank otherwise, each in its level's colour |
| EffectSpans.BuildTree | src/widget/effect_span.rs:17-58 | the first line is the span's prefix followed by its name in its own colour |
| EffectSpans.SpanTree | src/widget/effect_span.rs:10-15 | one line per span of the pre-order listing, each ending with that span's name |
| EffectSpans.TreeFollowsPreorder | src/widget/effect_span.rs:45-55 | the lines of a subtree are as many as its pre-order listing and end with the listed names in order |
| EffectSpans.ChildLinesFollowForest | src/widget/effect_span.rs:49-55 | the lines of the children from index i on match the pre-order listings of those children, line by line |
| Sorting.FirstIndex | src/widget/area_registry.rs:41 | `position` finds the first index holding the element: it holds it and no earlier index does |
| Sorting.FirstIndexOfDistinct | src/widget/cell_filter_registry.rs:22-29 | in a list without duplicates the first index of the i-th element is i |
| Sorting.Insert | src/widget/area_registry.rs:29-30 | inserting into a sorted, duplicate-free list keeps exactly the old elements plus the new one |
| Sorting.SortDedup | src/widget/area_registry.rs:29-30 | `sort_by` followed by `dedup` keeps exactly the elements of the input |
| Sorting.InsertSorted | src/widget/area_registry.rs:29-30 | under a strict order, inserting keeps the list strictly sorted |
| Sorting.SortDedupSorted | src/widget/area_registry.rs:29-30 | under a strict order, the sorted and de-duplicated list is strictly increasing |
| Sorting.SortedDistinct | src/widget/area_registry.rs:30 | a strictly increasing list has no duplicates |
| Sorting.SortedUnique | src/widget/color_registry.rs:35-38 | two strictly increasing lists with the same elements are equal, so the ordered set of identifiers is determined by its elements |
| Sorting.LexIrreflexive | src/widget/color_registry.rs:35 | the lexicographic string order of `BTreeSet<String>` is irreflexive |
| Sorting.LexTransitive | src/widget/color_registry.rs:35 | the lexicographic string order is transitive |
| Sorting.LexTotal | src/widget/color_registry.rs:35 | two different strings are ordered one way or the other |
| Sorting.LexIsStrictOrder | src/widget/color_registry.rs:35 | the lexicographic string order is a strict total order |
| Format.NatToString | src/widget/area_registry.rs:42 | `{:}` of a number is a non-empty string of decimal digits without a leading zero |
| Format.NatToStringRoundTrip | src/widget/area_registry.rs:42 | reading the printed digits back gives the number |
| Format.NatToStringInjective | src/widget/area_registry.rs:42 | different numbers print differently |
| Format.ZeroPad2 | src/widget/cell_filter_registry.rs:50 | `{:02}` pads numbers below 10 with one leading zero and prints the others unpadded |
| CellFilterRegistries.FormatId | src/widget/cell_filter_registry.rs:46-52 | index 0 prints as the padded star and any other index as `cf-` and its two-digit number |
| CellFilterRegistries.FormatIdInjective | src/widget/cell_filter_registry.rs:46-52 | different indices get different ids |
| CellFilterRegistries.FilterStrings | src/widget/cell_filter_registry.rs:15-17 | the filter text of every span, in iteration order |
| CellFilterRegistries.RegisteredProps | src/widget/cell_filter_registry.rs:31-36 | registering a sequence of filter texts keeps the list free of duplicates, keeps the initial entries as a prefix, and holds exactly the initial and the registered texts |
| CellFilterRegistries.RegisteredExtends | src/widget/cell_filter_registry.rs:15-17 | registering more texts only appends: the list after k texts is a prefix of the final list |
| CellFilterRegistries.CellFilterRegistry.From | src/widget/cell_filter_registry.rs:10-20 | the registry starts with `all` and registers the filter of every span in pre-order; it holds exactly `all` and those filter texts, without duplicates |
| CellFilterRegistries.CellFilterRegistry.Register | src/widget/cell_filter_registry.rs:31-36 | the filter text is appended only when it is not already present; the list stays duplicate-free with "all" first |
| CellFilterRegistries.CellFilterRegistry.IdOf | src/widget/cell_filter_registry.rs:22-29 | an id exists exactly when the filter's text is registered (the `unwrap` panic is None), and it is the formatted index of that text |
| CellFilterRegistries.CellFilterRegistry.Entries | src/widget/cell_filter_registry.rs:39-43 | one entry per registered filter, in order, carrying the filter text |
| CellFilterRegistries.CellFilterRegistry.IdOfAll | src/widget/cell_filter_registry.rs:10-13 | the `all` filter always has the star id |
| CellFilterRegistries.CellFilterRegistry.IdOfDistinguishes | src/widget/cell_filter_registry.rs:22-29 | two registered filters share an id exactly when their texts are equal |
| CellFilterRegistries.CellFilterRegistry.EntriesMatchIdOf | src/widget/cell_filter_registry.rs:39-43 | the id listed in an entry is the id `id_of` gives for that filter |
| AreaRegistries.Pack | src/widget/area_registry.rs:22-27 | the packed key of a rectangle fits in 64 bits |
| AreaRegistries.TwoDigits | src/widget/area_registry.rs:22-27 | comparing two-digit numbers in base 65536 is comparing the high digits, then the low digits |
| AreaRegistries.PackOrder | src/widget/area_registry.rs:22-29 | comparing packed keys is the lexicographic order on (x, y, width, height), and equal keys mean equal rectangles |
| AreaRegistries.PackLessIsStrictOrder | src/widget/area_registry.rs:29 | the comparator given to `sort_by` is a strict total order on rectangles |
| AreaRegistries.SomeAreas | src/widget/area_registry.rs:15-20 | exactly the areas that some span sets |
| AreaRegistries.AreaRegistry.From | src/widget/area_registry.rs:14-35 | the registry holds exactly the areas set by the spans of the tree, strictly increasing in the packed order, so without duplicates |
| AreaRegistries.AreaRegistry.IdOf | src/widget/area_registry.rs:37-45 | no area gives three blanks; a registered area gives `r#` and its one-based index; an unregistered area is the `unwrap` panic, None |
| AreaRegistries.AreaRegistry.Entries | src/widget/area_registry.rs:47-51 | one entry per registered area, in order, carrying the area |
| AreaRegistries.AreaRegistry.EntriesMatchIdOf | src/widget/area_registry.rs:47-51 | the id listed in an entry is the id `id_of` gives for that area |
| AreaRegistries.AreaRegistry.IdOfDistinguishes | src/widget/area_registry.rs:37-45 | two registered areas share an id exactly when they are equal, and no registered area has the id of None |
| ColorRegistries.StripSuffix | src/widget/color_registry.rs:73 | the suffix strips exactly when the string ends with it, and what remains plus the suffix is the string |
| ColorRegistries.IdOf | src/widget/color_registry.rs:71-78 | the identifier is a prefix of the effect name, and a name ending in `_out` loses exactly that suffix |
| ColorRegistries.VariantsShareId | src/widget/color_registry.rs:71-78 | the `_out`, `_in`, `_to` and `_from` variants of a name all map to the bare name |
| ColorRegistries.OneSuffixOnly | src/widget/color_registry.rs:71-78 | only one suffix is stripped, and a name without a suffix is its own identifier |
| ColorRegistries.Identifiers | src/widget/color_registry.rs:34-38 | the identifier set holds exactly the identifiers of the spans' names |
| ColorRegistries.IdentifiersSorted | src/widget/color_registry.rs:35-38 | the identifiers come out in strictly increasing lexicographic order, without duplicates, as a `BTreeSet` iterates them |
| ColorRegistries.Hue | src/widget/color_registry.rs:44 | the hue of slot idx of len lies in the half-open hue range (or is its start when the range is empty) |
| ColorRegistries.Palette | src/widget/color_registry.rs:42-46 | one colour per identifier, slot i taking the HSL colour at hue slot i |
| ColorRegistries.Colors | src/widget/color_registry.rs:51-54 | the colours of a table, in table order |
| ColorRegistries.Lookup | src/widget/color_registry.rs:64-67 | a colour is found exactly when some entry has the identifier, and it is that entry's colour |
| ColorRegistries.ColorTable | src/widget/color_registry.rs:29-58 | None exactly when an HSL range assertion fails; otherwise one entry per identifier in sorted order, whose colours are the palette shuffled by the seeded generator, a permutation of the palette |
| ColorRegistries.ColorRegistry.constructor | src/widget/color_registry.rs:56-58 | the registry holds the given table |
| ColorRegistries.ColorRegistry.ColorOf | src/widget/color_registry.rs:61-68 | the colour of a name is the table colour of its identifier; a missing identifier is the `expect` panic, None |
| ColorRegistries.ColorRegistry.ColorOfIsThePair | src/widget/color_registry.rs:61-68 | in a registry with strictly increasing identifiers, a name has colour c exactly when the table pairs its identifier with c |
| ColorRegistries.NewColorRegistry | src/widget/color_registry.rs:14-59 | None exactly when an HSL range assertion fails; otherwise a valid registry (identifiers strictly increasing) in which a name has a colour exactly when its identifier is one of the spans', so every span's name has a colour |

## Left out

- Floating point: the model has no f32 arithmetic.
  - Seconds, ratios and alphas are exact reals, or whole milliseconds where the library converts a `Duration`.
  - The f32 conversions of `Duration` (`src/duration.rs:30-44`) are not modelled.
  - The span times of `EffectSpan` are kept in milliseconds, not f32 seconds.
- Non-linear easing curves are an uninterpreted function of the curve and the alpha; only `Linear` is the identity.
- Colour arithmetic is a parameter, so colours are opaque values:
  - the RGB blend behind `Color::lerp`;
  - `Color::from_hsl` and the HSL conversion of `src/interpolation.rs`;
  - the `hsl_shift` colour maths and the ANSI-256 tables.
- The window alpha of sweep and slide is an input function of the position: `alphaAt(q)` in `Painters.SweepCells` and `Painters.SlideCells` stands for `window_alpha.alpha(offset(q, variance))`, where `offset` is `Painters.ShiftPosition` and the variance is `Directions.Variance` (`src/fx/sweep_in.rs:101,115,157-162`, `src/fx/slide.rs:76,102,159-164`). The sliding-window gradient geometry is not part of this model.
- `Layout::split`, `PositionFn` and `EvalCell` closures are functions looked up by id. ratatui's `Rect`, `Position`, `Cell` and `Buffer` are modelled minimally. Clearing or drawing a `Block` in `resize_area` is not modelled.
- `ShaderFn` user code and `OffscreenBuffer`'s render target are modelled through an id:
  - a user function becomes an integer code function in the environment;
  - a shared `Rc<RefCell<Buffer>>` becomes a buffer reference. The model does not capture aliasing between two effects that share one buffer.
- Shaders.Process: the combinators update their fields in place in the library. The model advances them as values: the tree function returns the advanced node. Only the `Effect` facade and its two container loops are imperative.
- Shaders.Process: a tick carries a step budget (fuel), and running out of it is `Err(OutOfFuel)`. A sequence whose child returns an overflow without being done can loop forever in the library; the model does not say what happens beyond the budget.
- EffectTimers.Process: the timer is a `Copy` value, so `process` is a function returning the new timer and the overflow, not a method on a borrowed timer.
- Painters.SweepCells, Painters.SlideCells, Painters.FadeCells: the library panics at the first cell of the area that is missing from the buffer. The model returns false instead, and does not state which cells were painted before that cell. An area whose far edge overflows u16 returns false and changes nothing. As in the library, the stored cell filter is not consulted.
- Painters.FadeAt: requires the position to lie in the buffer, because the cell iterator only yields positions of its area.
- EffectSpans.SpanTree: the tree printer keeps the indent as a set of levels instead of a u128 bit mask. The mask would overflow beyond 128 levels; the set never does.
- EffectSpans.SpanTree: the colour of a label is a function parameter rather than a `ColorRegistry`.
- AreaRegistries.AreaRegistry.Entries: the second component of an entry is the `Rect` itself. ratatui's `Display` of a `Rect` is not part of this model.
- AreaRegistries.AreaRegistry.From: `sort_by` and `dedup` in place are modelled on values, as one sorted duplicate-free list. ColorRegistries.Identifiers models the `BTreeSet` the same way.
- ColorRegistries.ColorTable and ColorRegistries.NewColorRegistry: require fewer identifiers than the usize limit, so that the shuffle's index arithmetic cannot wrap.
- ColorRegistries.ColorTable: the seed of `SimpleRng::default` comes from the system clock (`src/simple_rng.rs:65-74`), so it is a parameter.
- `ColorResolver` in `src/widget/color_resolver.rs` is the same code as `ColorRegistry`, with a local `shuffle` that draws the same usize ranges. It is covered by the `ColorRegistries` members.
- SimpleRngs.Shuffle: requires fewer elements than the usize limit.
- `gen_f32` and the f32 `gen_range` (`src/simple_rng.rs:52-57`, `98-105`) are not modelled, because they are floating point.
- Glitch's rounded population target (`src/fx/glitch.rs:51-52`) is a parameter; inside the effect tree it is the environment's `population` function of the area and the ratio, because it rounds an f32.
- Shaders.Step: the buffer side of a glitch frame (the cells a glitch mutates, the random choice of change) is the environment's `glitch` function. Under `Shaders.GlitchFrameFollows` it must panic with the empty-range message exactly where `Glitches.Scheduled` has no population and return the running survivors of the scheduled population; it is not computed by `Glitches.ProcessGlitch` itself, which `Glitches.ProcessGlitchFollowsSchedule` shows has that shape.
- EffectTimers.Scale: the scaled total is a nat. The u32 overflow panic of `timer * n` (`src/fx/repeat.rs:112`) and of ping-pong's `* 2` (`src/fx/ping_pong.rs:80`) is not raised by `Shaders.TimerOf`; EffectTimers.ScaleIsDurationMul states when it would be.
- Shaders.TotalDuration: the sum is a nat. The u32 overflow panic of the sequence's `sum` (`src/fx/containers.rs:166-170`) is not raised by `Shaders.TimerOf`; ShaderLaws.TotalDurationIsSum states when it would be. The same holds for prolong's `self_duration + inner_duration` (`src/fx/prolong.rs:90-95`).
- `dissolve`, `coalesce`, the effect timeline and chart widgets, `bounding_box`, the feature plumbing (`Rc`/`Arc`) and the examples are not part of this model: they are float geometry, thread-local randomness, UI rendering or wiring.

## Findings

| source | as written | input that shows it | evidently intended | confidence | as-written member | corrected member |
|---|---|---|---|---|---|---|
| src/simple_rng.rs:80-87 | the u32 `gen_range` computes the range size as `end - start` with wrapping arithmetic, then asserts it is positive | `gen_range(20..10)` from state 0 passes the assert (the size wraps to 2^32 - 10) and returns 1013904243 | an empty or reversed range panics; otherwise the value lies in [start, end) | not executed | SimpleRngs.ReversedU32RangePassesAssert | SimpleRngs.SampleChecked |
| src/simple_rng.rs:107-114 | the i32 `gen_range` computes the range size as a wrapping i32 difference, then asserts it is positive | `gen_range(-2000000000..2000000000)` panics whatever the state, although the range is not empty | a non-empty range yields a value in [start, end) | not executed | SimpleRngs.WideI32RangePanics | SimpleRngs.SampleChecked |
| src/fx/glitch.rs:58 | the cell count `width * height` is computed in u16 | a 256×256 area counts 0 cells, so drawing an index panics; a 300×300 area counts 24464 and never glitches its later cells | the index is drawn from all width·height cells | not executed | Glitches.LargeAreaCountWraps | Glitches.CellCount |
