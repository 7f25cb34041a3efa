/** Copying one cell buffer onto another at an offset, clipped on every
    edge (`blit_buffer`; `render_buffer` of a shared buffer calls it with
    the shared buffer as the source). */
module BufferRenderer {
  import opened Wrappers
  import opened Terminal

  /** The clipping of one axis: where the placed source starts in the
      destination, how many leading source columns (rows) a negative offset
      drops, and how many trailing ones the destination's extent drops. */
  datatype Clip = Clip(start: int, left: int, right: int)

  /** The u16 arithmetic of one axis neither overflows nor underflows: the
      placed source ends within u16, and a negative offset is no larger
      than the source. */
  predicate AxisFits(o: int, size: u16) {
    Max(o, 0) + size <= U16_MAX && -Min(o, 0) <= size
  }

  /** The clip values `blit_buffer` computes for one axis, given the offset,
      the source extent and the destination extent. */
  function AxisClip(o: int, size: u16, target: u16): (c: Clip)
    requires AxisFits(o, size)
    ensures c.start - c.left == o && c.left >= 0 && c.right >= 0
  {
    var start := Max(o, 0);
    var left := -Min(o, 0);
    var r := start + size - left;
    Clip(start, left, r - Min(r, target))
  }

  /** Whether the blit writes the destination position q: the source
      position q - offset lies in the unclipped range and in the source. */
  predicate Copies(srcArea: Rect, dstArea: Rect, off: Offset, q: Position)
    requires AxisFits(off.x, srcArea.width) && AxisFits(off.y, srcArea.height)
  {
    var cx := AxisClip(off.x, srcArea.width, dstArea.width);
    var cy := AxisClip(off.y, srcArea.height, dstArea.height);
    var x := q.x - off.x;
    var y := q.y - off.y;
    cx.left <= x < srcArea.width - cx.right && cy.left <= y < srcArea.height - cy.right
    && srcArea.Contains(Position(x, y))
  }

  /** The source position whose cell lands on q. */
  function SourceOf(srcArea: Rect, dstArea: Rect, off: Offset, q: Position): (p: Position)
    requires AxisFits(off.x, srcArea.width) && AxisFits(off.y, srcArea.height)
    requires Copies(srcArea, dstArea, off, q)
    ensures srcArea.Contains(p) && p.x == q.x - off.x && p.y == q.y - off.y
  {
    Position(q.x - off.x, q.y - off.y)
  }

  /** `blit_buffer`: every destination cell the shifted source covers gets
      the source cell; every other destination cell keeps its value. */
  method BlitBuffer(src: Buffer, dst: Buffer, offset: Offset)
    requires src.Valid() && dst.Valid() && src.content != dst.content
    requires AxisFits(offset.x, src.area.width) && AxisFits(offset.y, src.area.height)
    modifies dst.content
    ensures forall q :: dst.area.Contains(q) ==>
      dst.content[IndexOf(dst.area, q)]
        == if Copies(src.area, dst.area, offset, q)
           then src.content[IndexOf(src.area, SourceOf(src.area, dst.area, offset, q))]
           else old(dst.content[IndexOf(dst.area, q)])
  {
    var cx := AxisClip(offset.x, src.area.width, dst.area.width);
    var cy := AxisClip(offset.y, src.area.height, dst.area.height);
    if src.area.width < cx.right || src.area.height < cy.right {
      return;
    }
    var y := cy.left;
    while y < src.area.height - cy.right
      invariant cy.left <= y
      invariant forall q :: dst.area.Contains(q) ==>
        dst.content[IndexOf(dst.area, q)]
          == if Copies(src.area, dst.area, offset, q) && q.y - offset.y < y
             then src.content[IndexOf(src.area, SourceOf(src.area, dst.area, offset, q))]
             else old(dst.content[IndexOf(dst.area, q)])
    {
      var x := cx.left;
      while x < src.area.width - cx.right
        invariant cx.left <= x && y < src.area.height - cy.right
        invariant forall q :: dst.area.Contains(q) ==>
          dst.content[IndexOf(dst.area, q)]
            == if Copies(src.area, dst.area, offset, q)
                  && (q.y - offset.y < y || (q.y - offset.y == y && q.x - offset.x < x))
               then src.content[IndexOf(src.area, SourceOf(src.area, dst.area, offset, q))]
               else old(dst.content[IndexOf(dst.area, q)])
      {
        BlitCell(src, dst, offset, cx, cy, x, y);
        x := x + 1;
      }
      y := y + 1;
    }
  }

  /** One turn of the inner loop: copy source (x, y) to destination
      (x + offset.x, y + offset.y) when both cells exist. */
  method BlitCell(src: Buffer, dst: Buffer, offset: Offset, cx: Clip, cy: Clip, x: int, y: int)
    requires src.Valid() && dst.Valid() && src.content != dst.content
    requires AxisFits(offset.x, src.area.width) && AxisFits(offset.y, src.area.height)
    requires cx == AxisClip(offset.x, src.area.width, dst.area.width)
    requires cy == AxisClip(offset.y, src.area.height, dst.area.height)
    requires cx.left <= x < src.area.width - cx.right && cy.left <= y < src.area.height - cy.right
    modifies dst.content
    ensures forall q :: dst.area.Contains(q) ==>
      dst.content[IndexOf(dst.area, q)]
        == if Copies(src.area, dst.area, offset, q) && q.y - offset.y == y && q.x - offset.x == x
           then src.content[IndexOf(src.area, SourceOf(src.area, dst.area, offset, q))]
           else old(dst.content[IndexOf(dst.area, q)])
  {
    var q := Position(x + cx.start - cx.left, y + cy.start - cy.left);
    var p := Position(x, y);
    if dst.area.Contains(q) && src.area.Contains(p) {
      dst.content[IndexOf(dst.area, q)] := src.content[IndexOf(src.area, p)];
    }
  }

  /** With both buffers anchored at the origin, a destination cell is
      written exactly when its position minus the offset is a source cell:
      leading rows and columns are dropped for a negative offset, and the
      part beyond the destination for a large source. */
  lemma OriginBlit(w: u16, h: u16, tw: u16, th: u16, off: Offset, q: Position)
    requires AxisFits(off.x, w) && AxisFits(off.y, h)
    requires Rect(0, 0, tw, th).Contains(q)
    ensures Copies(Rect(0, 0, w, h), Rect(0, 0, tw, th), off, q)
        <==> 0 <= q.x - off.x < w && 0 <= q.y - off.y < h
  {
  }

  /** A source placed wholly beyond an edge of the destination copies
      nothing. */
  lemma OffscreenCopiesNothing(w: u16, h: u16, tw: u16, th: u16, off: Offset, q: Position)
    requires AxisFits(off.x, w) && AxisFits(off.y, h)
    requires Rect(0, 0, tw, th).Contains(q)
    requires off.x >= tw || off.y >= th || off.x + w <= 0 || off.y + h <= 0
    ensures !Copies(Rect(0, 0, w, h), Rect(0, 0, tw, th), off, q)
  {
    OriginBlit(w, h, tw, th, off, q);
  }

  /** A 4x4 source at offset (-1, -2) on an 8x8 destination: the top-left
      3x2 block receives source columns 1..3 of rows 2..3. */
  lemma NegativeOffsetExample(q: Position)
    requires Rect(0, 0, 8, 8).Contains(q)
    ensures Copies(Rect(0, 0, 4, 4), Rect(0, 0, 8, 8), Offset(-1, -2), q) <==> q.x < 3 && q.y < 2
    ensures q == Position(0, 0) ==>
      SourceOf(Rect(0, 0, 4, 4), Rect(0, 0, 8, 8), Offset(-1, -2), q) == Position(1, 2)
  {
    OriginBlit(4, 4, 8, 8, Offset(-1, -2), q);
  }

  /** A 10x6 source at offset (0, 0) on an 8x3 destination fills it with
      the source's top-left 8x3 block. */
  lemma LargerSourceExample(q: Position)
    requires Rect(0, 0, 8, 3).Contains(q)
    ensures Copies(Rect(0, 0, 10, 6), Rect(0, 0, 8, 3), Offset(0, 0), q)
    ensures SourceOf(Rect(0, 0, 10, 6), Rect(0, 0, 8, 3), Offset(0, 0), q) == q
  {
    OriginBlit(10, 6, 8, 3, Offset(0, 0), q);
  }
}
