/** A minimal model of the ratatui types the engine works on: positions,
    rectangles, margins, offsets, colours, styles, cells and cell buffers.
    Only what the engine relies on is modelled; ratatui itself is not part
    of this model. */
module Terminal {
  import opened Wrappers

  type u8 = x: int | 0 <= x < 0x100
  type u16 = x: int | 0 <= x < 0x1_0000
  type i16 = x: int | -0x8000 <= x < 0x8000
  type i32 = x: int | -0x8000_0000 <= x < 0x8000_0000
  const U32_LIMIT: int := 0x1_0000_0000
  type u32 = x: int | 0 <= x < 0x1_0000_0000

  /** Rust's `x as i16` on a u16: the same bits read as two's complement. */
  function WrapI16(x: u16): (r: i16)
    ensures r == x || r == x - 0x1_0000
  {
    if x < 0x8000 then x else x - 0x1_0000
  }

  const U16_MAX: u16 := 0xFFFF

  function SaturatingAdd(a: u16, b: u16): u16 {
    if a + b <= U16_MAX then a + b else U16_MAX
  }

  function SaturatingSub(a: u16, b: u16): u16 {
    if a >= b then a - b else 0
  }

  function SaturatingMul2(a: u16): u16 {
    if 2 * a <= U16_MAX then 2 * a else U16_MAX
  }

  datatype Position = Position(x: u16, y: u16)

  datatype Margin = Margin(horizontal: u16, vertical: u16)

  datatype Size = Size(width: u16, height: u16)

  datatype Offset = Offset(x: i32, y: i32)

  datatype Rect = Rect(x: u16, y: u16, width: u16, height: u16) {

    function Right(): u16 { SaturatingAdd(x, width) }

    function Bottom(): u16 { SaturatingAdd(y, height) }

    function Area(): nat { width * height }

    /** ratatui keeps the far edges of a rect within u16: x + width and
        y + height do not overflow. */
    predicate Fits() { x + width <= U16_MAX && y + height <= U16_MAX }

    predicate Contains(p: Position) {
      x <= p.x < Right() && y <= p.y < Bottom()
    }

    /** ratatui's `Rect::inner`: shrink by the margin on every side, or the
        zero rect when the margin does not fit. */
    function Inner(m: Margin): Rect {
      var dh := SaturatingMul2(m.horizontal);
      var dv := SaturatingMul2(m.vertical);
      if width < dh || height < dv then ZERO_RECT
      else Rect(SaturatingAdd(x, m.horizontal), SaturatingAdd(y, m.vertical),
                SaturatingSub(width, dh), SaturatingSub(height, dv))
    }
  }

  const ZERO_RECT: Rect := Rect(0, 0, 0, 0)

  datatype Color =
    | Reset | Black | Red | Green | Yellow | Blue | Magenta | Cyan | Gray | DarkGray
    | LightRed | LightGreen | LightYellow | LightBlue | LightMagenta | LightCyan | White
    | Rgb(r: u8, g: u8, b: u8)
    | Indexed(index: u8)

  /** `Color::default()`. */
  const DEFAULT_COLOR: Color := Reset

  /** A style: optional foreground and background; the remaining style
      attributes (modifiers, underline colour) are kept as one opaque value. */
  datatype Style = Style(fg: Option<Color>, bg: Option<Color>, attributes: nat)

  /** A terminal cell: its symbol (a grapheme, as a string) and its colours. */
  datatype Cell = Cell(symbol: string, fg: Color, bg: Color)

  /** A cell buffer covering `area`, stored row by row: the cell at
      position p lives at index (p.y - area.y) * area.width + (p.x - area.x)
      of `content` (ratatui's `Buffer::index_of`). */
  class Buffer {
    const area: Rect
    const content: array<Cell>

    ghost predicate Valid()
      reads this
    {
      content.Length == area.Area()
    }

    /** ratatui's `Buffer::cell`: the cell at p, or None outside the area. */
    function Get(p: Position): (r: Option<Cell>)
      requires Valid()
      reads this, content
      ensures r.Some? <==> area.Contains(p)
      ensures r.Some? ==> r.value == content[IndexOf(area, p)]
    {
      if area.Contains(p) then Some(content[IndexOf(area, p)]) else None
    }

    constructor (area: Rect, content: array<Cell>)
      requires content.Length == area.Area()
      ensures Valid() && this.area == area && this.content == content
    {
      this.area := area;
      this.content := content;
    }
  }

  /** `Buffer::index_of`: the row-major index of a position of the area. */
  function IndexOf(area: Rect, p: Position): (i: nat)
    requires area.Contains(p)
    ensures i < area.Area()
    ensures i % area.width == p.x - area.x && i / area.width == p.y - area.y
  {
    RowMajorIndex(area.width, area.height, p.x - area.x, p.y - area.y);
    (p.y - area.y) * area.width + (p.x - area.x)
  }

  /** The inverse of `IndexOf`: the position at row-major index i of an
      area whose far edges fit in u16. */
  function PositionOf(area: Rect, i: nat): (p: Position)
    requires i < area.Area() && area.Fits()
    ensures area.Contains(p)
    ensures IndexOf(area, p) == i
  {
    var w, h := area.width, area.height;
    RowMajorSplit(i, w, h);
    var col := i % w;
    var row := i / w;
    var p := Position(area.x + col, area.y + row);
    p
  }

  /** Row-major indices and positions of an area correspond one to one. */
  lemma IndexPositionRoundTrip(area: Rect, p: Position)
    requires area.Contains(p) && area.Fits()
    ensures PositionOf(area, IndexOf(area, p)) == p
  {
  }

  /** An index below w·h splits into a row below h and a column below w. */
  lemma RowMajorSplit(i: nat, w: nat, h: nat)
    requires i < w * h
    ensures w > 0 && 0 <= i / w < h && 0 <= i % w < w && i == (i / w) * w + i % w
  {
    if w == 0 {
      assert false;
    }
    if i / w >= h {
      MulLe(h, i / w, w);
    }
  }

  lemma RowMajorIndex(w: nat, h: nat, col: nat, row: nat)
    requires col < w && row < h
    ensures row * w + col < w * h
    ensures (row * w + col) % w == col && (row * w + col) / w == row
  {
    assert row * w + col < (row + 1) * w;
    assert (row + 1) * w <= h * w by { MulLe(row + 1, h, w); }
    DivModUnique(row * w + col, w, row, col);
  }

  /** Euclidean division is unique: k = q·w + r with 0 <= r < w fixes q and r. */
  lemma DivModUnique(k: int, w: int, q: int, r: int)
    requires 0 <= r < w && k == q * w + r
    ensures k / w == q && k % w == r
  {
    var q' := k / w;
    var r' := k % w;
    assert (q - q') * w == r' - r;
    if q > q' {
      MulLe(1, q - q', w);
    } else if q < q' {
      MulLe(1, q' - q, w);
    }
  }

  lemma MulLe(a: nat, b: nat, n: nat)
    requires a <= b
    ensures a * n <= b * n
  {
  }
}
