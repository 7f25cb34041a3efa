/** The row-major cell iterator: it hands out, one by one, every position of
    an area together with the buffer cell at that position. A mutable cell
    reference is modelled as the cell's index in the buffer's content, so a
    write through it is a write to `buf.content[index]`. */
module CellIterators {
  import opened Terminal

  /** What `next` returns: an item, the end of the iteration, or the panic
      of `Buffer::get_mut` for a position outside the buffer. */
  datatype Step = Yielded(pos: Position, index: nat) | Finished | OutOfBuffer

  /** The result of `next` when the counter is i. */
  function StepAt(area: Rect, bufArea: Rect, i: nat): (r: Step)
    requires area.Fits()
    ensures r.Finished? <==> i >= area.Area()
    ensures r.Yielded? ==>
      area.Contains(r.pos) && IndexOf(area, r.pos) == i
      && bufArea.Contains(r.pos) && r.index == IndexOf(bufArea, r.pos)
    ensures r.OutOfBuffer? ==> i < area.Area() && !bufArea.Contains(PositionOf(area, i))
  {
    if i < area.Area() then
      var p := PositionOf(area, i);
      if bufArea.Contains(p) then Yielded(p, IndexOf(bufArea, p)) else OutOfBuffer
    else Finished
  }

  /** Item i sits at column i mod width and row i div width of the area. */
  lemma RowMajorOrder(area: Rect, bufArea: Rect, i: nat)
    requires area.Fits() && StepAt(area, bufArea, i).Yielded?
    ensures StepAt(area, bufArea, i).pos
         == Position(area.x + i % area.width, area.y + i / area.width)
  {
    var p := StepAt(area, bufArea, i).pos;
    RowMajorIndex(area.width, area.height, p.x - area.x, p.y - area.y);
  }

  /** No position is handed out twice. */
  lemma ItemsDistinct(area: Rect, bufArea: Rect, i: nat, j: nat)
    requires area.Fits() && i != j
    requires StepAt(area, bufArea, i).Yielded? && StepAt(area, bufArea, j).Yielded?
    ensures StepAt(area, bufArea, i).pos != StepAt(area, bufArea, j).pos
    ensures StepAt(area, bufArea, i).index != StepAt(area, bufArea, j).index
  {
  }

  /** Every position of the area is handed out, at its row-major index. */
  lemma ItemsCoverArea(area: Rect, bufArea: Rect, p: Position)
    requires area.Fits() && area.Contains(p) && bufArea.Contains(p)
    ensures StepAt(area, bufArea, IndexOf(area, p)) == Yielded(p, IndexOf(bufArea, p))
  {
    IndexPositionRoundTrip(area, p);
  }

  /** An area inside the buffer never panics; an empty area yields nothing,
      so the modulo by its zero width is never evaluated. */
  lemma NoPanicInsideBuffer(area: Rect, bufArea: Rect, i: nat)
    requires area.Fits()
    requires forall p :: area.Contains(p) ==> bufArea.Contains(p)
    ensures !StepAt(area, bufArea, i).OutOfBuffer?
    ensures area.Area() == 0 ==> StepAt(area, bufArea, i) == Finished
  {
  }

  /** `CellIterator`: a counter over an area of a buffer. */
  class CellIterator {
    var current: nat
    const area: Rect
    const buf: Buffer

    /** `CellIterator::new`. */
    constructor (buf: Buffer, area: Rect)
      requires area.Fits()
      ensures this.buf == buf && this.area == area && current == 0
    {
      this.buf := buf;
      this.area := area;
      current := 0;
    }

    /** `next`: the item at the counter, which then advances; once the area
        is exhausted every call returns Finished. */
    method Next() returns (r: Step)
      requires area.Fits()
      modifies this
      ensures r == StepAt(area, buf.area, old(current))
      ensures current == if r.Yielded? then old(current) + 1 else old(current)
    {
      if current < area.Area() {
        var p := PositionOf(area, current);
        if !buf.area.Contains(p) {
          return OutOfBuffer;
        }
        r := Yielded(p, IndexOf(buf.area, p));
        current := current + 1;
      } else {
        r := Finished;
      }
    }
  }
}
