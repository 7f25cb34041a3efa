/** `CenteredShrink::inner_centered`: a rectangle of at most the requested
    size, centred inside another. */
module RectExt {
  import opened Wrappers
  import opened Terminal

  /** The u16 additions of `inner_centered` do not overflow (in a debug build
      they panic otherwise). Every rectangle whose right and bottom edges fit
      in a u16 satisfies this. */
  predicate InnerCenteredDefined(r: Rect, width: u16, height: u16) {
    r.x + SaturatingSub(r.width, width) / 2 <= U16_MAX
    && r.y + SaturatingSub(r.height, height) / 2 <= U16_MAX
  }

  /** The centred rectangle: it is no larger than either the request or the
      outer rectangle, lies inside the outer rectangle, and splits the slack
      so that the far gap exceeds the near gap by at most one. */
  function InnerCentered(r: Rect, width: u16, height: u16): (c: Rect)
    requires InnerCenteredDefined(r, width, height)
    ensures c.width == Min(width, r.width) && c.height == Min(height, r.height)
    ensures r.x <= c.x && c.x + c.width <= r.x + r.width
    ensures r.y <= c.y && c.y + c.height <= r.y + r.height
    ensures c.x - r.x == (r.width - c.width) / 2 && c.y - r.y == (r.height - c.height) / 2
    ensures 0 <= (r.x + r.width - (c.x + c.width)) - (c.x - r.x) <= 1
    ensures 0 <= (r.y + r.height - (c.y + c.height)) - (c.y - r.y) <= 1
  {
    var x := r.x + SaturatingSub(r.width, width) / 2;
    var y := r.y + SaturatingSub(r.height, height) / 2;
    Rect(x, y, if width <= r.width then width else r.width, if height <= r.height then height else r.height)
  }

  /** Centring a rectangle inside itself at a size it already has (or
      exceeds) changes nothing; in particular the operation is idempotent. */
  lemma InnerCenteredIdempotent(r: Rect, width: u16, height: u16)
    requires InnerCenteredDefined(r, width, height)
    ensures InnerCenteredDefined(InnerCentered(r, width, height), width, height)
    ensures InnerCentered(InnerCentered(r, width, height), width, height) == InnerCentered(r, width, height)
  {
  }

  /** The documented example: 50x50 inside 100x100 at the origin. */
  lemma InnerCenteredExample()
    ensures InnerCenteredDefined(Rect(0, 0, 100, 100), 50, 50)
    ensures InnerCentered(Rect(0, 0, 100, 100), 50, 50) == Rect(25, 25, 50, 50)
  {
  }
}
