/** Cell filters: which cells of an area an effect may touch. A filter is
    resolved against an area into a selector; a cell is selected when both
    its position test and its content test pass. The layout splitter, the
    position predicates and the cell predicates are user code and enter the
    model as the functions of an `Oracles` record; a layout index past the
    end of the split (a panic in the source) makes the result `None`. */
module CellFilters {
  import opened Wrappers
  import opened Terminal
  import opened Format

  datatype CellFilter =
    | All
    | FgColor(color: Color)
    | BgColor(color: Color)
    | Inner(margin: Margin)
    | Outer(margin: Margin)
    | Text
    | AllOf(filters: seq<CellFilter>)
    | AnyOf(filters: seq<CellFilter>)
    | NoneOf(filters: seq<CellFilter>)
    | Not(filter: CellFilter)
    | Layout(layout: nat, index: u16)
    | PositionFn(fnId: nat)
    | EvalCell(fnId: nat)

  /** `CellFilter::default()`. */
  const DEFAULT: CellFilter := All

  /** The user code a filter refers to: `Layout::split`, the position and
      cell predicates, and the RGB components of a colour. */
  datatype Oracles = Oracles(
    split: (nat, Rect) -> seq<Rect>,
    position: (nat, Position) -> bool,
    eval: (nat, Cell) -> bool,
    toRgb: Color -> (u8, u8, u8))

  function Size(f: CellFilter): nat {
    match f
    case AllOf(fs) => 1 + SizeSeq(fs)
    case AnyOf(fs) => 1 + SizeSeq(fs)
    case NoneOf(fs) => 1 + SizeSeq(fs)
    case Not(g) => 1 + Size(g)
    case _ => 1
  }

  function SizeSeq(fs: seq<CellFilter>): nat {
    if fs == [] then 0 else 1 + Size(fs[0]) + SizeSeq(fs[1..])
  }

  lemma {:induction false} SizeSeqElement(fs: seq<CellFilter>, i: nat)
    requires i < |fs|
    ensures Size(fs[i]) < SizeSeq(fs)
  {
    if i > 0 { SizeSeqElement(fs[1..], i - 1); }
  }

  // ---------------------------------------------------------------- to_string

  function ToHex(c: Color, o: Oracles): string {
    var (r, g, b) := o.toRgb(c);
    "#" + Hex2(r) + Hex2(g) + Hex2(b)
  }

  function FormatMargin(m: Margin): string {
    NatToString(m.horizontal) + ":" + NatToString(m.vertical)
  }

  /** `CellFilter::to_string`. */
  function ToString(f: CellFilter, o: Oracles): (s: string)
    decreases Size(f), 1
  {
    match f
    case All => "all"
    case FgColor(c) => "fg(" + ToHex(c, o) + ")"
    case BgColor(c) => "bg(" + ToHex(c, o) + ")"
    case Inner(m) => "inner(" + FormatMargin(m) + ")"
    case Outer(m) => "outer(" + FormatMargin(m) + ")"
    case Text => "text"
    case AllOf(fs) => "all_of(" + ToStrings(fs, o) + ")"
    case AnyOf(fs) => "any_of(" + ToStrings(fs, o) + ")"
    case NoneOf(fs) => "none_of(" + ToStrings(fs, o) + ")"
    case Not(g) => "!" + ToString(g, o)
    case Layout(_, idx) => "layout(" + NatToString(idx) + ")"
    case PositionFn(_) => "position_fn"
    case EvalCell(_) => "cell_fn"
  }

  /** The sub-filters' strings joined with ", ". */
  function ToStrings(fs: seq<CellFilter>, o: Oracles): string
    decreases SizeSeq(fs), 0
  {
    if fs == [] then ""
    else if |fs| == 1 then ToString(fs[0], o)
    else ToString(fs[0], o) + ", " + ToStrings(fs[1..], o)
  }

  lemma HexOfStandardColors(o: Oracles)
    requires o.toRgb(Red) == (128, 0, 0) && o.toRgb(Green) == (0, 128, 0)
    ensures ToHex(Red, o) == "#800000"
    ensures ToHex(Green, o) == "#008000"
  {
    assert Hex2(128) == "80";
    assert Hex2(0) == "00";
  }

  /** The documented renderings of the leaf filters, for colours whose RGB
      components are the standard ones (red is 128,0,0 and green 0,128,0). */
  lemma LeafToStringExamples(o: Oracles)
    requires o.toRgb(Red) == (128, 0, 0) && o.toRgb(Green) == (0, 128, 0)
    ensures ToString(FgColor(Red), o) == "fg(#800000)"
    ensures ToString(BgColor(Green), o) == "bg(#008000)"
    ensures ToString(Inner(Margin(1, 1)), o) == "inner(1:1)"
    ensures ToString(Outer(Margin(3, 4)), o) == "outer(3:4)"
    ensures ToString(Text, o) == "text"
    ensures ToString(Layout(0, 0), o) == "layout(0)"
    ensures ToString(PositionFn(0), o) == "position_fn"
    ensures ToString(EvalCell(0), o) == "cell_fn"
  {
    HexOfStandardColors(o);
    assert NatToString(1) == "1";
    assert NatToString(3) == "3";
    assert NatToString(4) == "4";
    assert NatToString(0) == "0";
  }

  lemma PairToString(o: Oracles)
    requires o.toRgb(Red) == (128, 0, 0) && o.toRgb(Green) == (0, 128, 0)
    ensures ToStrings([FgColor(Red), BgColor(Green)], o) == "fg(#800000), bg(#008000)"
  {
    LeafToStringExamples(o);
    var fs := [FgColor(Red), BgColor(Green)];
    assert fs[1..] == [BgColor(Green)];
  }

  /** ... and of the composite ones: sub-filters joined with ", " ... */
  lemma AllOfToStringExample(o: Oracles)
    requires o.toRgb(Red) == (128, 0, 0) && o.toRgb(Green) == (0, 128, 0)
    ensures ToString(AllOf([FgColor(Red), BgColor(Green)]), o) == "all_of(fg(#800000), bg(#008000))"
  {
    PairToString(o);
  }

  lemma AnyOfToStringExample(o: Oracles)
    requires o.toRgb(Red) == (128, 0, 0) && o.toRgb(Green) == (0, 128, 0)
    ensures ToString(AnyOf([FgColor(Red), BgColor(Green)]), o) == "any_of(fg(#800000), bg(#008000))"
  {
    PairToString(o);
  }

  lemma NoneOfToStringExample(o: Oracles)
    requires o.toRgb(Red) == (128, 0, 0) && o.toRgb(Green) == (0, 128, 0)
    ensures ToString(NoneOf([FgColor(Red), BgColor(Green)]), o) == "none_of(fg(#800000), bg(#008000))"
  {
    PairToString(o);
  }

  /** ... and `!` before a negated filter. */
  lemma NotToStringExample(o: Oracles)
    requires o.toRgb(Red) == (128, 0, 0) && o.toRgb(Green) == (0, 128, 0)
    ensures ToString(Not(FgColor(Red)), o) == "!fg(#800000)"
  {
    LeafToStringExamples(o);
  }

  // ---------------------------------------------------------------- selectors

  /** A filter resolved against an area. */
  datatype CellSelector = CellSelector(innerArea: Rect, strategy: CellFilter)

  /** `CellSelector::resolve_area`. */
  function ResolveArea(area: Rect, f: CellFilter, o: Oracles): (r: Option<Rect>)
    ensures (f.Inner? || f.Outer?) ==> r == Some(area.Inner(f.margin))
    ensures f.Layout? ==>
      (r.Some? <==> f.index < |o.split(f.layout, area)|)
      && (r.Some? ==> r.value == o.split(f.layout, area)[f.index])
    ensures f.Not? ==> r == ResolveArea(area, f.filter, o)
    ensures !(f.Inner? || f.Outer? || f.Layout? || f.Not?) ==> r == Some(area)
  {
    match f
    case Inner(m) => Some(area.Inner(m))
    case Outer(m) => Some(area.Inner(m))
    case Not(g) => ResolveArea(area, g, o)
    case Layout(l, idx) =>
      var parts := o.split(l, area);
      if idx < |parts| then Some(parts[idx]) else None
    case _ => Some(area)
  }

  /** `CellFilter::selector`. */
  function Selector(f: CellFilter, area: Rect, o: Oracles): (s: Option<CellSelector>)
    ensures s.Some? <==> ResolveArea(area, f, o).Some?
    ensures s.Some? ==> s.value == CellSelector(ResolveArea(area, f, o).value, f)
  {
    var inner :- ResolveArea(area, f, o);
    Some(CellSelector(inner, f))
  }

  /** `CellSelector::valid_position` of a selector whose inner area is
      `inner`. Sub-filters of AllOf/AnyOf/NoneOf are re-resolved against
      `inner`; the folds stop at the first decisive answer, as `all` and
      `any` do. */
  function ValidPosition(inner: Rect, pos: Position, f: CellFilter, o: Oracles): Option<bool>
    decreases Size(f), 1
  {
    match f
    case Outer(_) => Some(!inner.Contains(pos))
    case AllOf(fs) => AllPositions(inner, pos, fs, o)
    case AnyOf(fs) => AnyPosition(inner, pos, fs, o)
    case NoneOf(fs) => NoPosition(inner, pos, fs, o)
    case Not(g) => ValidPosition(inner, pos, g, o)
    case PositionFn(id) => Some(o.position(id, pos))
    case _ => Some(inner.Contains(pos))
  }

  /** The position test of a sub-filter, through its own selector. */
  function SubPosition(inner: Rect, pos: Position, g: CellFilter, o: Oracles): Option<bool>
    decreases Size(g), 2
  {
    var s :- Selector(g, inner, o);
    ValidPosition(s.innerArea, pos, g, o)
  }

  function AllPositions(inner: Rect, pos: Position, fs: seq<CellFilter>, o: Oracles): Option<bool>
    decreases SizeSeq(fs), 3
  {
    if fs == [] then Some(true)
    else
      SizeSeqElement(fs, 0);
      var b :- SubPosition(inner, pos, fs[0], o);
      if !b then Some(false) else AllPositions(inner, pos, fs[1..], o)
  }

  function AnyPosition(inner: Rect, pos: Position, fs: seq<CellFilter>, o: Oracles): Option<bool>
    decreases SizeSeq(fs), 3
  {
    if fs == [] then Some(false)
    else
      SizeSeqElement(fs, 0);
      var b :- SubPosition(inner, pos, fs[0], o);
      if b then Some(true) else AnyPosition(inner, pos, fs[1..], o)
  }

  function NoPosition(inner: Rect, pos: Position, fs: seq<CellFilter>, o: Oracles): Option<bool>
    decreases SizeSeq(fs), 3
  {
    if fs == [] then Some(true)
    else
      SizeSeqElement(fs, 0);
      var b :- SubPosition(inner, pos, fs[0], o);
      if b then Some(false) else NoPosition(inner, pos, fs[1..], o)
  }

  /** The symbols the Text filter accepts: one byte (so one ASCII
      character) that is a letter, a digit, a space or one of `?!.,:;`. */
  predicate IsTextSymbol(symbol: string) {
    |symbol| == 1 && symbol[0] < 128 as char
    && (('a' <= symbol[0] <= 'z') || ('A' <= symbol[0] <= 'Z') || IsDigit(symbol[0])
        || symbol[0] == ' ' || symbol[0] in "?!.,:;")
  }

  /** `CellSelector::is_valid_cell` of a selector whose inner area is `inner`. */
  function IsValidCell(inner: Rect, cell: Cell, f: CellFilter, o: Oracles): Option<bool>
    decreases Size(f), 1
  {
    match f
    case Text => Some(IsTextSymbol(cell.symbol))
    case AllOf(fs) => AllCells(inner, cell, fs, o)
    case FgColor(c) => Some(cell.fg == c)
    case BgColor(c) => Some(cell.bg == c)
    case Not(g) =>
      var b :- IsValidCell(inner, cell, g, o);
      Some(!b)
    case EvalCell(id) => Some(o.eval(id, cell))
    case _ => Some(true)
  }

  function SubCell(inner: Rect, cell: Cell, g: CellFilter, o: Oracles): Option<bool>
    decreases Size(g), 2
  {
    var s :- Selector(g, inner, o);
    IsValidCell(s.innerArea, cell, g, o)
  }

  function AllCells(inner: Rect, cell: Cell, fs: seq<CellFilter>, o: Oracles): Option<bool>
    decreases SizeSeq(fs), 3
  {
    if fs == [] then Some(true)
    else
      SizeSeqElement(fs, 0);
      var b :- SubCell(inner, cell, fs[0], o);
      if !b then Some(false) else AllCells(inner, cell, fs[1..], o)
  }

  /** `CellSelector::is_valid`: the position test, then (only if it passed)
      the content test. */
  function IsValid(s: CellSelector, pos: Position, cell: Cell, o: Oracles): (r: Option<bool>)
    ensures r == Some(true) <==>
      ValidPosition(s.innerArea, pos, s.strategy, o) == Some(true)
      && IsValidCell(s.innerArea, cell, s.strategy, o) == Some(true)
    ensures ValidPosition(s.innerArea, pos, s.strategy, o) == Some(false) ==> r == Some(false)
  {
    var p :- ValidPosition(s.innerArea, pos, s.strategy, o);
    if !p then Some(false) else IsValidCell(s.innerArea, cell, s.strategy, o)
  }

  // ---------------------------------------------------------------- properties

  /** Inner and Outer shrink the area by the margin; Inner selects the
      positions inside the shrunk area and Outer exactly the others. */
  lemma InnerOuterComplement(area: Rect, m: Margin, pos: Position, o: Oracles)
    ensures Selector(Inner(m), area, o) == Some(CellSelector(area.Inner(m), Inner(m)))
    ensures Selector(Outer(m), area, o) == Some(CellSelector(area.Inner(m), Outer(m)))
    ensures ValidPosition(area.Inner(m), pos, Inner(m), o) == Some(area.Inner(m).Contains(pos))
    ensures ValidPosition(area.Inner(m), pos, Outer(m), o) == Some(!area.Inner(m).Contains(pos))
  {
  }

  /** Not keeps the wrapped filter's area and position test and negates
      only its content test. */
  lemma NotNegatesContentOnly(area: Rect, pos: Position, cell: Cell, f: CellFilter, o: Oracles)
    ensures ResolveArea(area, Not(f), o) == ResolveArea(area, f, o)
    ensures ValidPosition(area, pos, Not(f), o) == ValidPosition(area, pos, f, o)
    ensures IsValidCell(area, cell, f, o).Some? ==>
      IsValidCell(area, cell, Not(f), o) == Some(!IsValidCell(area, cell, f, o).value)
  {
  }

  /** Hence Not(All) and Not(Inner m) select no cell at all. */
  lemma NotAllSelectsNothing(area: Rect, m: Margin, pos: Position, cell: Cell, o: Oracles)
    ensures Selector(Not(All), area, o).Some?
    ensures IsValid(Selector(Not(All), area, o).value, pos, cell, o) == Some(false)
    ensures Selector(Not(Inner(m)), area, o).Some?
    ensures IsValid(Selector(Not(Inner(m)), area, o).value, pos, cell, o) == Some(false)
  {
    var inner := area.Inner(m);
    assert Selector(Not(Inner(m)), area, o) == Some(CellSelector(inner, Not(Inner(m))));
    assert ValidPosition(inner, pos, Not(Inner(m)), o) == Some(inner.Contains(pos));
    assert IsValidCell(inner, cell, Inner(m), o) == Some(true);
    assert IsValidCell(inner, cell, Not(Inner(m)), o) == Some(false);
  }

  /** The content test of every filter other than Text, AllOf, FgColor,
      BgColor, Not and EvalCell accepts every cell. */
  lemma ContentTestAcceptsAll(inner: Rect, cell: Cell, f: CellFilter, o: Oracles)
    requires f.All? || f.Inner? || f.Outer? || f.AnyOf? || f.NoneOf? || f.Layout? || f.PositionFn?
    ensures IsValidCell(inner, cell, f, o) == Some(true)
  {
  }

  /** Colour filters compare exactly, and PositionFn's position test is the
      user predicate alone: containment in the area is not checked. */
  lemma ColorAndPositionFnTests(inner: Rect, pos: Position, cell: Cell, c: Color, id: nat, o: Oracles)
    ensures IsValidCell(inner, cell, FgColor(c), o) == Some(cell.fg == c)
    ensures IsValidCell(inner, cell, BgColor(c), o) == Some(cell.bg == c)
    ensures ValidPosition(inner, pos, PositionFn(id), o) == Some(o.position(id, pos))
  {
  }

  /** When no sub-filter panics, AllOf's position test is the conjunction of
      its sub-filters' tests. */
  lemma {:induction false} AllOfIsConjunction(inner: Rect, pos: Position, fs: seq<CellFilter>, o: Oracles)
    requires forall i :: 0 <= i < |fs| ==> SubPosition(inner, pos, fs[i], o).Some?
    ensures AllPositions(inner, pos, fs, o)
         == Some(forall i :: 0 <= i < |fs| ==> SubPosition(inner, pos, fs[i], o) == Some(true))
  {
    if fs != [] {
      assert forall i :: 0 <= i < |fs[1..]| ==> fs[1..][i] == fs[i + 1];
      AllOfIsConjunction(inner, pos, fs[1..], o);
    }
  }

  /** ... AnyOf's is the disjunction ... */
  lemma {:induction false} AnyOfIsDisjunction(inner: Rect, pos: Position, fs: seq<CellFilter>, o: Oracles)
    requires forall i :: 0 <= i < |fs| ==> SubPosition(inner, pos, fs[i], o).Some?
    ensures AnyPosition(inner, pos, fs, o)
         == Some(exists i :: 0 <= i < |fs| && SubPosition(inner, pos, fs[i], o) == Some(true))
  {
    if fs != [] {
      assert forall i :: 0 <= i < |fs[1..]| ==> fs[1..][i] == fs[i + 1];
      AnyOfIsDisjunction(inner, pos, fs[1..], o);
      if SubPosition(inner, pos, fs[0], o) != Some(true) {
        assert (exists i :: 0 <= i < |fs| && SubPosition(inner, pos, fs[i], o) == Some(true))
          <==> (exists i :: 0 <= i < |fs[1..]| && SubPosition(inner, pos, fs[1..][i], o) == Some(true));
      }
    }
  }

  /** ... and NoneOf's holds when no sub-filter's test does. */
  lemma {:induction false} NoneOfIsNoneOf(inner: Rect, pos: Position, fs: seq<CellFilter>, o: Oracles)
    requires forall i :: 0 <= i < |fs| ==> SubPosition(inner, pos, fs[i], o).Some?
    ensures NoPosition(inner, pos, fs, o)
         == Some(forall i :: 0 <= i < |fs| ==> SubPosition(inner, pos, fs[i], o) == Some(false))
  {
    if fs != [] {
      assert forall i :: 0 <= i < |fs[1..]| ==> fs[1..][i] == fs[i + 1];
      NoneOfIsNoneOf(inner, pos, fs[1..], o);
    }
  }

  /** AllOf's content test is the conjunction of its sub-filters' tests. */
  lemma {:induction false} AllOfContentIsConjunction(inner: Rect, cell: Cell, fs: seq<CellFilter>, o: Oracles)
    requires forall i :: 0 <= i < |fs| ==> SubCell(inner, cell, fs[i], o).Some?
    ensures IsValidCell(inner, cell, AllOf(fs), o)
         == Some(forall i :: 0 <= i < |fs| ==> SubCell(inner, cell, fs[i], o) == Some(true))
  {
    if fs != [] {
      assert forall i :: 0 <= i < |fs[1..]| ==> fs[1..][i] == fs[i + 1];
      AllOfContentIsConjunction(inner, cell, fs[1..], o);
    }
  }

  /** Text accepts letters, digits, space and the listed punctuation, and
      rejects other characters, multi-byte characters and longer symbols. */
  lemma TextExamples()
    ensures IsTextSymbol("a") && IsTextSymbol("Z") && IsTextSymbol("7") && IsTextSymbol(" ") && IsTextSymbol("?")
    ensures !IsTextSymbol("#") && !IsTextSymbol("ab") && !IsTextSymbol("") && !IsTextSymbol("é")
  {
  }
}
