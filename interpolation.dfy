/** The easing functions of the simple_easing crate, by name. Their shapes are
    not part of this model: wherever an eased value is needed, the curves are
    passed in as a function `ease(curve, a)`. */
module Easing {
  datatype Curve =
    | BackIn | BackOut | BackInOut
    | BounceIn | BounceOut | BounceInOut
    | CircIn | CircOut | CircInOut
    | CubicIn
    | ElasticIn | ElasticOut | ElasticInOut
    | ExpoIn | ExpoOut | ExpoInOut
    | QuadIn | QuadOut | QuadInOut
    | QuartIn | QuartOut | QuartInOut
    | QuintIn | QuintOut | QuintInOut
    | Reverse
    | SineIn | SineOut | SineInOut

  /** The curves themselves, supplied from outside the model. */
  type Curves = (Curve, real) -> real
}

/** src/interpolation.rs: the `Interpolation` enum, its `alpha` dispatch table,
    `tween`, and the `lerp` implementations. Floating-point values are modelled
    as reals; `f32` rounding is not modelled. */
module Interpolation {
  import opened Wrappers
  import opened Terminal
  import Easing

  datatype Interpolation =
    | BackIn | BackOut | BackInOut
    | BounceIn | BounceOut | BounceInOut
    | CircIn | CircOut | CircInOut
    | CubicIn | CubicOut | CubicInOut
    | ElasticIn | ElasticOut | ElasticInOut
    | ExpoIn | ExpoOut | ExpoInOut
    | Linear
    | QuadIn | QuadOut | QuadInOut
    | QuartIn | QuartOut | QuartInOut
    | QuintIn | QuintOut | QuintInOut
    | Reverse
    | SineIn | SineOut | SineInOut

  /** `#[default]`. */
  const DEFAULT: Interpolation := Linear

  /** The easing function each interpolation dispatches to; None for Linear,
      whose alpha is the identity. */
  function CurveOf(i: Interpolation): Option<Easing.Curve> {
    match i
    case BackIn => Some(Easing.Curve.BackIn)
    case BackOut => Some(Easing.Curve.BackOut)
    case BackInOut => Some(Easing.Curve.BackInOut)
    case BounceIn => Some(Easing.Curve.BounceIn)
    case BounceOut => Some(Easing.Curve.BounceOut)
    case BounceInOut => Some(Easing.Curve.BounceInOut)
    case CircIn => Some(Easing.Curve.CircIn)
    case CircOut => Some(Easing.Curve.CircOut)
    case CircInOut => Some(Easing.Curve.CircInOut)
    case CubicIn => Some(Easing.Curve.CubicIn)
    case CubicOut => Some(Easing.Curve.CircOut)
    case CubicInOut => Some(Easing.Curve.CircInOut)
    case ElasticIn => Some(Easing.Curve.ElasticIn)
    case ElasticOut => Some(Easing.Curve.ElasticOut)
    case ElasticInOut => Some(Easing.Curve.ElasticInOut)
    case ExpoIn => Some(Easing.Curve.ExpoIn)
    case ExpoOut => Some(Easing.Curve.ExpoOut)
    case ExpoInOut => Some(Easing.Curve.ExpoInOut)
    case Linear => None
    case QuadIn => Some(Easing.Curve.QuadIn)
    case QuadOut => Some(Easing.Curve.QuadOut)
    case QuadInOut => Some(Easing.Curve.QuadInOut)
    case QuartIn => Some(Easing.Curve.QuartIn)
    case QuartOut => Some(Easing.Curve.QuartOut)
    case QuartInOut => Some(Easing.Curve.QuartInOut)
    case QuintIn => Some(Easing.Curve.QuintIn)
    case QuintOut => Some(Easing.Curve.QuintOut)
    case QuintInOut => Some(Easing.Curve.QuintInOut)
    case Reverse => Some(Easing.Curve.Reverse)
    case SineIn => Some(Easing.Curve.SineIn)
    case SineOut => Some(Easing.Curve.SineOut)
    case SineInOut => Some(Easing.Curve.SineInOut)
  }

  /** `Interpolation::alpha`. */
  function Alpha(i: Interpolation, a: real, ease: Easing.Curves): (r: real)
    ensures i == Linear ==> r == a
    ensures i != Linear ==> r == ease(CurveOf(i).value, a)
  {
    match CurveOf(i)
    case None => a
    case Some(c) => ease(c, a)
  }

  /** Only Linear is the identity; CubicOut and CubicInOut borrow the circular
      curves, and every other interpolation uses the curve of its own name. */
  lemma DispatchTable()
    ensures DEFAULT == Linear
    ensures forall i :: CurveOf(i).None? <==> i == Linear
    ensures CurveOf(CubicOut) == Some(Easing.Curve.CircOut)
    ensures CurveOf(CubicInOut) == Some(Easing.Curve.CircInOut)
    ensures CurveOf(CubicIn) == Some(Easing.Curve.CubicIn)
    ensures forall i, j :: CurveOf(i) == CurveOf(j) && i != j ==>
      {i, j} == {CircOut, CubicOut} || {i, j} == {CircInOut, CubicInOut}
  {
  }

  /** Rust's `f32::round`: to the nearest integer, halves away from zero. */
  function Round(x: real): int {
    if x >= 0.0 then (x + 0.5).Floor else -((-x + 0.5).Floor)
  }

  lemma RoundIsNearest(x: real)
    ensures (Round(x) - 1) as real < x + 0.5 && x - 0.5 < (Round(x) + 1) as real
    ensures (Round(x) as real - x) <= 0.5 && (x - Round(x) as real) <= 0.5
  {
  }

  lemma RoundOfInteger(n: int)
    ensures Round(n as real) == n
  {
  }

  /** Rust's saturating float-to-integer cast `as u16`. */
  function SaturateU16(n: int): u16 {
    if n < 0 then 0 else if n > U16_MAX then U16_MAX else n
  }

  /** `f32::lerp`. */
  function LerpReal(s: real, t: real, alpha: real): real {
    s + (t - s) * alpha
  }

  /** `u16::lerp`: lerp as floats, round, cast back. */
  function LerpU16(s: u16, t: u16, alpha: real): u16 {
    SaturateU16(Round(LerpReal(s as real, t as real, alpha)))
  }

  function SaturateI16(n: int): i16 {
    if n < -0x8000 then -0x8000 else if n > 0x7FFF then 0x7FFF else n
  }

  /** `i16::lerp`: lerp as floats, round, cast back (the cast saturates). */
  function LerpI16(s: i16, t: i16, alpha: real): i16 {
    SaturateI16(Round(LerpReal(s as real, t as real, alpha)))
  }

  /** `i32::lerp`: the rounded scaled difference added to the start. */
  function LerpI32(s: int, t: int, alpha: real): int {
    s + Round((t - s) as real * alpha)
  }

  /** `Color::lerp`: exact endpoints, otherwise the HSL blend, which is not part
      of this model and is passed in as `blend`. */
  function LerpColor(c: Color, target: Color, alpha: real, blend: (Color, Color, real) -> Color): (r: Color)
    ensures alpha == 0.0 ==> r == c
    ensures alpha == 1.0 ==> r == target
  {
    if alpha == 0.0 then c
    else if alpha == 1.0 then target
    else blend(c, target, alpha)
  }

  /** `Option<Color>::lerp`. */
  function LerpOptionColor(c: Option<Color>, target: Option<Color>, alpha: real,
                           blend: (Color, Color, real) -> Color): (r: Option<Color>)
    ensures r.None? <==> c.None? && target.None?
    ensures c.Some? && target.Some? ==> r == Some(LerpColor(c.value, target.value, alpha, blend))
    ensures c.Some? && target.None? ==> r == c
    ensures c.None? && target.Some? ==> r == target
  {
    match (c, target)
    case (Some(c1), Some(c2)) => Some(LerpColor(c1, c2, alpha, blend))
    case (Some(c1), None) => Some(c1)
    case (None, Some(c2)) => Some(c2)
    case (None, None) => None
  }

  /** `Style::lerp`: the fg and bg of self are overwritten only where the
      option lerp yields a colour. */
  function LerpStyle(s: Style, target: Style, alpha: real, blend: (Color, Color, real) -> Color): Style {
    var fg := LerpOptionColor(s.fg, target.fg, alpha, blend);
    var bg := LerpOptionColor(s.bg, target.bg, alpha, blend);
    var s1 := if fg.Some? then s.(fg := fg) else s;
    if bg.Some? then s1.(bg := bg) else s1
  }

  /** `(T, T)::lerp`: component-wise, for any component lerp. */
  function LerpPair<T>(lerp: (T, T, real) -> T, s: (T, T), target: (T, T), alpha: real): (T, T) {
    (lerp(s.0, target.0, alpha), lerp(s.1, target.1, alpha))
  }

  /** `Offset::lerp`: component-wise i32 lerp. */
  function LerpOffset(s: Offset, target: Offset, alpha: real): (int, int) {
    (LerpI32(s.x, target.x, alpha), LerpI32(s.y, target.y, alpha))
  }

  /** `tween`: lerp by the interpolated alpha. */
  function TweenColor(c: Color, target: Color, alpha: real, i: Interpolation, ease: Easing.Curves,
                      blend: (Color, Color, real) -> Color): Color {
    LerpColor(c, target, Alpha(i, alpha, ease), blend)
  }

  lemma TweenIsLerpOfAlpha(c: Color, target: Color, alpha: real, i: Interpolation, ease: Easing.Curves,
                           blend: (Color, Color, real) -> Color)
    ensures TweenColor(c, target, alpha, Linear, ease, blend) == LerpColor(c, target, alpha, blend)
    ensures i != Linear ==>
      TweenColor(c, target, alpha, i, ease, blend) == LerpColor(c, target, ease(CurveOf(i).value, alpha), blend)
  {
  }

  /** Style lerp: the fg and bg are exactly the option lerps of the two
      styles' colours, and every other attribute comes from self. */
  lemma LerpStyleChannels(s: Style, target: Style, alpha: real, blend: (Color, Color, real) -> Color)
    ensures LerpStyle(s, target, alpha, blend).fg == LerpOptionColor(s.fg, target.fg, alpha, blend)
    ensures LerpStyle(s, target, alpha, blend).bg == LerpOptionColor(s.bg, target.bg, alpha, blend)
    ensures LerpStyle(s, target, alpha, blend).attributes == s.attributes
  {
  }

  /** At alpha 0 every lerp returns its start and at alpha 1 its target. */
  lemma LerpEndpoints(a: u16, b: u16, m: int, n: int, x: real, y: real, i: i16, j: i16)
    ensures LerpU16(a, b, 0.0) == a && LerpU16(a, b, 1.0) == b
    ensures LerpI16(i, j, 0.0) == i && LerpI16(i, j, 1.0) == j
    ensures LerpI32(m, n, 0.0) == m && LerpI32(m, n, 1.0) == n
    ensures LerpReal(x, y, 0.0) == x && LerpReal(x, y, 1.0) == y
  {
    RoundOfInteger(a);
    RoundOfInteger(b);
    RoundOfInteger(0);
    RoundOfInteger(n - m);
    RoundOfInteger(i);
    RoundOfInteger(j);
  }

  lemma LerpOffsetEndpoints(s: Offset, target: Offset)
    ensures LerpOffset(s, target, 0.0) == (s.x, s.y)
    ensures LerpOffset(s, target, 1.0) == (target.x, target.y)
  {
    LerpEndpoints(0, 0, s.x, target.x, 0.0, 0.0, 0, 0);
    LerpEndpoints(0, 0, s.y, target.y, 0.0, 0.0, 0, 0);
  }

  /** A lerp of i32 values with alpha in [0, 1] stays between its endpoints. */
  lemma LerpI32Between(s: int, t: int, alpha: real)
    requires 0.0 <= alpha <= 1.0
    ensures Min(s, t) <= LerpI32(s, t, alpha) <= Max(s, t)
  {
    var d := (t - s) as real * alpha;
    if s <= t {
      ScaleBetween((t - s) as real, alpha);
      RoundBetween(0, t - s, d);
    } else {
      var k := (s - t) as real;
      ScaleBetween(k, alpha);
      assert d == -k * alpha;
      RoundBetween(t - s, 0, d);
    }
  }

  /** A real between two integers rounds to an integer between them. */
  lemma RoundBetween(lo: int, hi: int, x: real)
    requires lo as real <= x <= hi as real
    ensures lo <= Round(x) <= hi
  {
    RoundMonotone(lo as real, x);
    RoundMonotone(x, hi as real);
    RoundOfInteger(lo);
    RoundOfInteger(hi);
  }

  lemma ScaleBetween(k: real, alpha: real)
    requires k >= 0.0 && 0.0 <= alpha <= 1.0
    ensures 0.0 <= k * alpha <= k
    ensures -k <= -k * alpha <= 0.0
  {
    assert k * (1.0 - alpha) >= 0.0;
  }

  lemma RoundMonotone(x: real, y: real)
    requires x <= y
    ensures Round(x) <= Round(y)
  {
  }
}
