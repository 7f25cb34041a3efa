/** The cell rules of the painting effects: sweep (`SweepIn`), slide
    (`SlideCell`) and fade (`FadeColors`). Each visits every cell of its
    area once and rewrites it in place. The per-cell window alpha of sweep
    and slide (a gradient over the area, shifted by a random per-row or
    per-column variance) is an input function of the position. */
module Painters {
  import opened Wrappers
  import opened Terminal
  import Interp = Interpolation
  import Easing
  import opened Directions
  import opened ColorMappers
  import opened CellIterators

  // ------------------------------------------------------------ areas

  /** Every position of the (non-empty) area lies inside the buffer area,
      stated on the coordinates. */
  predicate Covers(buf: Rect, area: Rect) {
    area.width == 0 || area.height == 0
    || (buf.x <= area.x && area.x + area.width <= buf.x + buf.width
        && buf.y <= area.y && area.y + area.height <= buf.y + buf.height)
  }

  /** Every position of the area is a position of the buffer. */
  ghost predicate Inside(buf: Rect, area: Rect) {
    forall q :: area.Contains(q) ==> buf.Contains(q)
  }

  /** A painter can visit the whole area without a panic: the loop bounds
      fit in u16 and every cell exists. */
  predicate Paintable(buf: Rect, area: Rect) {
    area.Fits() && Covers(buf, area)
  }

  /** For an area whose far edges fit in u16, the coordinate test and the
      position test agree. */
  lemma CoversIffInside(buf: Rect, area: Rect)
    requires area.Fits()
    ensures Covers(buf, area) <==> Inside(buf, area)
  {
    if area.width > 0 && area.height > 0 {
      if Inside(buf, area) {
        var lo := Position(area.x, area.y);
        var hi := Position(area.x + area.width - 1, area.y + area.height - 1);
        assert area.Contains(lo) && area.Contains(hi);
        assert buf.Contains(lo) && buf.Contains(hi);
      }
    }
  }

  /** `offset`: a position shifted by a signed amount, the coordinate read
      as an i16 (wrapping above 32767), clamped at 0; None where the i16
      addition overflows (a panic in a debug build). */
  function ShiftPosition(p: Position, t: (i16, i16)): (r: Option<Position>)
    ensures r.Some? <==> -0x8000 <= WrapI16(p.x) + t.0 < 0x8000 && -0x8000 <= WrapI16(p.y) + t.1 < 0x8000
  {
    var x := WrapI16(p.x) + t.0;
    var y := WrapI16(p.y) + t.1;
    if -0x8000 <= x < 0x8000 && -0x8000 <= y < 0x8000 then Some(Position(Max(x, 0), Max(y, 0))) else None
  }

  /** A position below 32768 moves by the shift, and stops at 0 instead of
      going negative. */
  lemma ShiftClamps(p: Position, t: (i16, i16))
    requires p.x < 0x8000 && p.y < 0x8000
    ensures ShiftPosition(p, t).Some? <==> p.x + t.0 < 0x8000 && p.y + t.1 < 0x8000
    ensures ShiftPosition(p, t).Some? ==>
      ShiftPosition(p, t).value.x == (if p.x + t.0 < 0 then 0 else p.x + t.0)
      && ShiftPosition(p, t).value.y == (if p.y + t.1 < 0 then 0 else p.y + t.1)
  {
  }

  // ------------------------------------------------------------ sweep

  /** The sweep's rule for one cell at window alpha a: 0 paints both
      colours with the faded colour, 1 leaves the cell as it is, anything
      else tweens from the faded colour toward the cell's colours along the
      circular-out curve. */
  function SweepCell(c: Cell, a: real, faded: Color, ease: Easing.Curves, blend: (Color, Color, real) -> Color)
    : (r: Cell)
    ensures r.symbol == c.symbol
    ensures a == 0.0 ==> r.fg == faded && r.bg == faded
    ensures a == 1.0 ==> r == c
    ensures a != 0.0 && a != 1.0 ==>
      r.fg == Interp.TweenColor(faded, c.fg, a, Interp.CircOut, ease, blend)
      && r.bg == Interp.TweenColor(faded, c.bg, a, Interp.CircOut, ease, blend)
  {
    if a == 0.0 then Cell(c.symbol, faded, faded)
    else if a == 1.0 then c
    else Cell(c.symbol, Interp.TweenColor(faded, c.fg, a, Interp.CircOut, ease, blend),
              Interp.TweenColor(faded, c.bg, a, Interp.CircOut, ease, blend))
  }

  /** A sweep mapper's cache holds the tween of its key, for every key
      alpha other than the initial 0.0 (which the tween branch never
      asks for). */
  predicate TweenCached(m: ColorMapper, faded: Color, ease: Easing.Curves, blend: (Color, Color, real) -> Color)
    reads m
  {
    m.original.1 != 0.0 ==> m.transformed == Interp.TweenColor(faded, m.original.0, m.original.1, Interp.CircOut, ease, blend)
  }

  /** The cells of the sweep's loops: those of the area in rows above y,
      and in row y left of x. */
  predicate Swept(area: Rect, q: Position, x: int, y: int) {
    area.Contains(q) && (q.y < y || (q.y == y && q.x < x))
  }

  /** `SweepIn::process`'s loops over the area, rows top to bottom and each
      row left to right: every cell of the area gets the sweep rule at its
      window alpha, every other cell is untouched. A cell outside the
      buffer panics on `unwrap`, and so do loop bounds beyond u16. */
  method SweepCells(buf: Buffer, area: Rect, alphaAt: Position -> real, faded: Color, ease: Easing.Curves,
                    blend: (Color, Color, real) -> Color) returns (ok: bool)
    requires buf.Valid()
    modifies buf.content
    ensures ok <==> area.Fits() && Inside(buf.area, area)
    ensures !area.Fits() ==> unchanged(buf.content)
    ensures ok ==> forall q :: buf.area.Contains(q) ==>
      buf.content[IndexOf(buf.area, q)]
        == if area.Contains(q) then SweepCell(old(buf.content[IndexOf(buf.area, q)]), alphaAt(q), faded, ease, blend)
           else old(buf.content[IndexOf(buf.area, q)])
  {
    if !area.Fits() {
      return false;
    }
    var fgMapper := new ColorMapper();
    var bgMapper := new ColorMapper();
    var y := area.y;
    while y < area.y + area.height
      invariant area.y <= y <= area.y + area.height
      invariant TweenCached(fgMapper, faded, ease, blend) && TweenCached(bgMapper, faded, ease, blend)
      invariant forall q :: Swept(area, q, area.x, y) ==> buf.area.Contains(q)
      invariant forall q :: buf.area.Contains(q) ==>
        buf.content[IndexOf(buf.area, q)]
          == if Swept(area, q, area.x, y)
             then SweepCell(old(buf.content[IndexOf(buf.area, q)]), alphaAt(q), faded, ease, blend)
             else old(buf.content[IndexOf(buf.area, q)])
    {
      var x := area.x;
      while x < area.x + area.width
        invariant area.x <= x <= area.x + area.width
        invariant TweenCached(fgMapper, faded, ease, blend) && TweenCached(bgMapper, faded, ease, blend)
        invariant forall q :: Swept(area, q, x, y) ==> buf.area.Contains(q)
        invariant forall q :: buf.area.Contains(q) ==>
          buf.content[IndexOf(buf.area, q)]
            == if Swept(area, q, x, y)
               then SweepCell(old(buf.content[IndexOf(buf.area, q)]), alphaAt(q), faded, ease, blend)
               else old(buf.content[IndexOf(buf.area, q)])
      {
        var pos := Position(x, y);
        var written := SweepAt(buf, pos, alphaAt(pos), faded, ease, blend, fgMapper, bgMapper);
        if !written {
          return false;
        }
        x := x + 1;
      }
      y := y + 1;
    }
    ok := true;
  }

  /** One turn of the sweep's inner loop: the cell at pos, looked up with
      `cell_mut(pos).unwrap()`, gets the sweep rule through the two
      mappers. */
  method SweepAt(buf: Buffer, pos: Position, a: real, faded: Color, ease: Easing.Curves,
                 blend: (Color, Color, real) -> Color, fgMapper: ColorMapper, bgMapper: ColorMapper)
    returns (ok: bool)
    requires buf.Valid() && fgMapper != bgMapper
    requires TweenCached(fgMapper, faded, ease, blend) && TweenCached(bgMapper, faded, ease, blend)
    modifies buf.content, fgMapper, bgMapper
    ensures TweenCached(fgMapper, faded, ease, blend) && TweenCached(bgMapper, faded, ease, blend)
    ensures ok <==> buf.area.Contains(pos)
    ensures !ok ==> unchanged(buf.content)
    ensures ok ==> forall q :: buf.area.Contains(q) ==>
      buf.content[IndexOf(buf.area, q)]
        == if q == pos then SweepCell(old(buf.content[IndexOf(buf.area, q)]), a, faded, ease, blend)
           else old(buf.content[IndexOf(buf.area, q)])
  {
    var cell := buf.Get(pos);
    if cell.None? {
      return false;
    }
    var next := SweepNext(cell.value, a, faded, ease, blend, fgMapper, bgMapper);
    buf.content[IndexOf(buf.area, pos)] := next;
    ok := true;
  }

  /** `apply_alpha` on one cell value: the colours go through the two
      mappers, whose caches keep agreeing with the tween. */
  method SweepNext(c: Cell, a: real, faded: Color, ease: Easing.Curves,
                   blend: (Color, Color, real) -> Color, fgMapper: ColorMapper, bgMapper: ColorMapper)
    returns (next: Cell)
    requires fgMapper != bgMapper
    requires TweenCached(fgMapper, faded, ease, blend) && TweenCached(bgMapper, faded, ease, blend)
    modifies fgMapper, bgMapper
    ensures TweenCached(fgMapper, faded, ease, blend) && TweenCached(bgMapper, faded, ease, blend)
    ensures next == SweepCell(c, a, faded, ease, blend)
  {
    next := c;
    if a == 0.0 {
      next := Cell(c.symbol, faded, faded);
    } else if a != 1.0 {
      var fg := fgMapper.Map(c.fg, a, col => Interp.TweenColor(faded, col, a, Interp.CircOut, ease, blend));
      var bg := bgMapper.Map(c.bg, a, col => Interp.TweenColor(faded, col, a, Interp.CircOut, ease, blend));
      next := Cell(c.symbol, fg, bg);
    }
  }

  // ------------------------------------------------------------ slide

  const SHRINK_H: seq<char> := ['\U{2588}', '\U{2589}', '\U{258A}', '\U{258B}', '\U{258C}', '\U{258D}', '\U{258E}', '\U{258F}', ' ']
  const SHRINK_V: seq<char> := ['\U{2588}', '\U{2587}', '\U{2586}', '\U{2585}', '\U{2584}', '\U{2583}', '\U{2582}', '\U{2581}', ' ']
  const LAST_IDX: nat := 8

  /** `slided_cell`: the alpha clamped to [0, 1] picks, rounded, one of
      nine glyphs from full to empty, of the direction's axis. */
  function SlideGlyph(d: Direction, alpha: real): (ch: char)
    ensures var a := if alpha < 0.0 then 0.0 else if alpha > 1.0 then 1.0 else alpha;
            var i := Interp.Round(LAST_IDX as real * a);
            0 <= i <= LAST_IDX && ch == if d.LeftToRight? || d.RightToLeft? then SHRINK_H[i] else SHRINK_V[i]
  {
    var a := if alpha < 0.0 then 0.0 else if alpha > 1.0 then 1.0 else alpha;
    var i := Interp.Round(LAST_IDX as real * a);
    assert 0 <= i <= LAST_IDX by {
      assert 0.0 <= LAST_IDX as real * a + 0.5 < 9.0;
    }
    if d.LeftToRight? || d.RightToLeft? then SHRINK_H[i] else SHRINK_V[i]
  }

  /** An alpha at or below 0 gives the full block, at or above 1 the blank,
      and the glyph never moves back toward full as the alpha grows. */
  lemma SlideGlyphProgress(d: Direction, a: real, b: real)
    requires a <= b
    ensures a <= 0.0 ==> SlideGlyph(d, a) == '\U{2588}'
    ensures b >= 1.0 ==> SlideGlyph(d, b) == ' '
    ensures var i := Interp.Round(LAST_IDX as real * (if a < 0.0 then 0.0 else if a > 1.0 then 1.0 else a));
            var j := Interp.Round(LAST_IDX as real * (if b < 0.0 then 0.0 else if b > 1.0 then 1.0 else b));
            i <= j
  {
    var ca := if a < 0.0 then 0.0 else if a > 1.0 then 1.0 else a;
    var cb := if b < 0.0 then 0.0 else if b > 1.0 then 1.0 else b;
    Interp.RoundMonotone(LAST_IDX as real * ca, LAST_IDX as real * cb);
  }

  /** The slide's rule for one cell at window alpha a: 0 leaves it as it
      is; otherwise its glyph becomes the blank (at 1) or the slided glyph,
      its foreground takes the old background and its background the colour
      behind the cell. */
  function SlideCell(c: Cell, a: real, d: Direction, behind: Color): (r: Cell)
    ensures a == 0.0 ==> r == c
    ensures a != 0.0 ==> r.fg == c.bg && r.bg == behind
    ensures a == 1.0 ==> r.symbol == " "
    ensures a != 0.0 && a != 1.0 ==> r.symbol == [SlideGlyph(d, a)]
  {
    if a == 0.0 then c
    else if a == 1.0 then Cell(" ", c.bg, behind)
    else Cell([SlideGlyph(d, a)], c.bg, behind)
  }

  /** `SlideCell::process`'s loops over the area: every cell of the area
      gets the slide rule at its window alpha, every other cell is
      untouched; a cell outside the buffer panics on `unwrap`. */
  method SlideCells(buf: Buffer, area: Rect, alphaAt: Position -> real, d: Direction, behind: Color)
    returns (ok: bool)
    requires buf.Valid()
    modifies buf.content
    ensures ok <==> area.Fits() && Inside(buf.area, area)
    ensures !area.Fits() ==> unchanged(buf.content)
    ensures ok ==> forall q :: buf.area.Contains(q) ==>
      buf.content[IndexOf(buf.area, q)]
        == if area.Contains(q) then SlideCell(old(buf.content[IndexOf(buf.area, q)]), alphaAt(q), d, behind)
           else old(buf.content[IndexOf(buf.area, q)])
  {
    if !area.Fits() {
      return false;
    }
    var y := area.y;
    while y < area.y + area.height
      invariant area.y <= y <= area.y + area.height
      invariant forall q :: Swept(area, q, area.x, y) ==> buf.area.Contains(q)
      invariant forall q :: buf.area.Contains(q) ==>
        buf.content[IndexOf(buf.area, q)]
          == if Swept(area, q, area.x, y) then SlideCell(old(buf.content[IndexOf(buf.area, q)]), alphaAt(q), d, behind)
             else old(buf.content[IndexOf(buf.area, q)])
    {
      var x := area.x;
      while x < area.x + area.width
        invariant area.x <= x <= area.x + area.width
        invariant forall q :: Swept(area, q, x, y) ==> buf.area.Contains(q)
        invariant forall q :: buf.area.Contains(q) ==>
          buf.content[IndexOf(buf.area, q)]
            == if Swept(area, q, x, y) then SlideCell(old(buf.content[IndexOf(buf.area, q)]), alphaAt(q), d, behind)
               else old(buf.content[IndexOf(buf.area, q)])
      {
        var pos := Position(x, y);
        var written := SlideAt(buf, pos, alphaAt(pos), d, behind);
        if !written {
          return false;
        }
        x := x + 1;
      }
      y := y + 1;
    }
    ok := true;
  }

  /** One turn of the slide's inner loop: the cell at pos, looked up with
      `cell_mut(pos).unwrap()`, gets the slide rule. */
  method SlideAt(buf: Buffer, pos: Position, a: real, d: Direction, behind: Color) returns (ok: bool)
    requires buf.Valid()
    modifies buf.content
    ensures ok <==> buf.area.Contains(pos)
    ensures !ok ==> unchanged(buf.content)
    ensures ok ==> forall q :: buf.area.Contains(q) ==>
      buf.content[IndexOf(buf.area, q)]
        == if q == pos then SlideCell(old(buf.content[IndexOf(buf.area, q)]), a, d, behind)
           else old(buf.content[IndexOf(buf.area, q)])
  {
    var cell := buf.Get(pos);
    if cell.None? {
      return false;
    }
    var c := cell.value;
    if a == 1.0 {
      buf.content[IndexOf(buf.area, pos)] := Cell(" ", c.bg, behind);
    } else if a != 0.0 {
      buf.content[IndexOf(buf.area, pos)] := Cell([SlideGlyph(d, a)], c.bg, behind);
    }
    ok := true;
  }

  // ------------------------------------------------------------ fade

  /** The fade's rule for one cell: each configured channel is lerped
      toward its target, the other channel and the glyph are kept. */
  function FadeCell(c: Cell, fg: Option<Color>, bg: Option<Color>, alpha: real, blend: (Color, Color, real) -> Color)
    : (r: Cell)
    ensures r.symbol == c.symbol
    ensures fg.None? ==> r.fg == c.fg
    ensures bg.None? ==> r.bg == c.bg
    ensures alpha == 0.0 ==> r == c
    ensures alpha == 1.0 ==> r.fg == fg.GetOr(c.fg) && r.bg == bg.GetOr(c.bg)
  {
    Cell(c.symbol,
         if fg.Some? then Interp.LerpColor(c.fg, fg.value, alpha, blend) else c.fg,
         if bg.Some? then Interp.LerpColor(c.bg, bg.value, alpha, blend) else c.bg)
  }

  /** A fade mapper's cache holds the lerp of its key toward the target at
      the tick's alpha. */
  predicate LerpCached(m: ColorMapper, target: Color, alpha: real, blend: (Color, Color, real) -> Color)
    reads m
  {
    m.original.1 == alpha ==> m.transformed == Interp.LerpColor(m.original.0, target, alpha, blend)
  }

  /** `FadeColors::execute` over the cell iterator of the area: every cell
      the iterator hands out gets the fade rule, every other cell is
      untouched; a position outside the buffer panics in `get_mut`. */
  method FadeCells(buf: Buffer, area: Rect, fg: Option<Color>, bg: Option<Color>, alpha: real,
                   blend: (Color, Color, real) -> Color) returns (ok: bool)
    requires buf.Valid()
    modifies buf.content
    ensures ok <==> area.Fits() && Inside(buf.area, area)
    ensures !area.Fits() ==> unchanged(buf.content)
    ensures ok ==> forall q :: buf.area.Contains(q) ==>
      buf.content[IndexOf(buf.area, q)]
        == if area.Contains(q) then FadeCell(old(buf.content[IndexOf(buf.area, q)]), fg, bg, alpha, blend)
           else old(buf.content[IndexOf(buf.area, q)])
  {
    if !area.Fits() {
      return false;
    }
    var it := new CellIterator(buf, area);
    var fgMapper := new ColorMapper();
    var bgMapper := new ColorMapper();
    while true
      invariant it.buf == buf && it.area == area && it.current <= area.Area()
      invariant fresh(it) && fresh(fgMapper) && fresh(bgMapper)
      invariant fg.Some? ==> LerpCached(fgMapper, fg.value, alpha, blend)
      invariant bg.Some? ==> LerpCached(bgMapper, bg.value, alpha, blend)
      invariant forall q :: area.Contains(q) && IndexOf(area, q) < it.current ==> buf.area.Contains(q)
      invariant forall q :: buf.area.Contains(q) ==>
        buf.content[IndexOf(buf.area, q)]
          == if area.Contains(q) && IndexOf(area, q) < it.current
             then FadeCell(old(buf.content[IndexOf(buf.area, q)]), fg, bg, alpha, blend)
             else old(buf.content[IndexOf(buf.area, q)])
      decreases area.Area() - it.current
    {
      ghost var visited := it.current;
      var step := it.Next();
      match step
      case Finished =>
        return true;
      case OutOfBuffer =>
        return false;
      case Yielded(pos, index) =>
        VisitOneMore(area, visited);
        FadeAt(buf, pos, fg, bg, alpha, blend, fgMapper, bgMapper);
    }
  }

  /** The positions whose row-major index is below c + 1 are those below c
      and the position with index c. */
  lemma VisitOneMore(area: Rect, c: nat)
    requires c < area.Area() && area.Fits()
    ensures forall q :: area.Contains(q) ==>
      (IndexOf(area, q) < c + 1 <==> IndexOf(area, q) < c || q == PositionOf(area, c))
  {
    forall q | area.Contains(q) && IndexOf(area, q) == c
      ensures q == PositionOf(area, c)
    {
      IndexPositionRoundTrip(area, q);
    }
  }

  /** One item of the fade's loop: the cell handed out at pos gets the fade
      rule, each configured channel through its mapper. */
  method FadeAt(buf: Buffer, pos: Position, fg: Option<Color>, bg: Option<Color>, alpha: real,
                blend: (Color, Color, real) -> Color, fgMapper: ColorMapper, bgMapper: ColorMapper)
    requires buf.Valid() && buf.area.Contains(pos) && fgMapper != bgMapper
    requires fg.Some? ==> LerpCached(fgMapper, fg.value, alpha, blend)
    requires bg.Some? ==> LerpCached(bgMapper, bg.value, alpha, blend)
    modifies buf.content, fgMapper, bgMapper
    ensures fg.Some? ==> LerpCached(fgMapper, fg.value, alpha, blend)
    ensures bg.Some? ==> LerpCached(bgMapper, bg.value, alpha, blend)
    ensures forall q :: buf.area.Contains(q) ==>
      buf.content[IndexOf(buf.area, q)]
        == if q == pos then FadeCell(old(buf.content[IndexOf(buf.area, q)]), fg, bg, alpha, blend)
           else old(buf.content[IndexOf(buf.area, q)])
  {
    var index := IndexOf(buf.area, pos);
    var next := FadeNext(buf.content[index], fg, bg, alpha, blend, fgMapper, bgMapper);
    buf.content[index] := next;
  }

  /** The fade of one cell value: each configured channel goes through its
      mapper, whose cache keeps agreeing with the lerp. */
  method FadeNext(c: Cell, fg: Option<Color>, bg: Option<Color>, alpha: real,
                  blend: (Color, Color, real) -> Color, fgMapper: ColorMapper, bgMapper: ColorMapper)
    returns (next: Cell)
    requires fgMapper != bgMapper
    requires fg.Some? ==> LerpCached(fgMapper, fg.value, alpha, blend)
    requires bg.Some? ==> LerpCached(bgMapper, bg.value, alpha, blend)
    modifies fgMapper, bgMapper
    ensures fg.Some? ==> LerpCached(fgMapper, fg.value, alpha, blend)
    ensures bg.Some? ==> LerpCached(bgMapper, bg.value, alpha, blend)
    ensures next == FadeCell(c, fg, bg, alpha, blend)
  {
    var newFg := c.fg;
    var newBg := c.bg;
    if fg.Some? {
      newFg := fgMapper.Map(c.fg, alpha, col => Interp.LerpColor(col, fg.value, alpha, blend));
    }
    if bg.Some? {
      newBg := bgMapper.Map(c.bg, alpha, col => Interp.LerpColor(col, bg.value, alpha, blend));
    }
    next := Cell(c.symbol, newFg, newBg);
  }
}
