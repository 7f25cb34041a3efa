/** `AreaRegistry`: the distinct areas of an effect tree, sorted by a
    64-bit packing of their fields, each named by its 1-based position. */
module AreaRegistries {
  import opened Wrappers
  import opened Terminal
  import opened Format
  import opened Sorting
  import opened EffectSpans

  const B: nat := 0x1_0000

  /** The sort key: `x << 48 | y << 32 | width << 16 | height`. The four
      fields are 16-bit, so the bit fields do not overlap and the `|` is a
      sum of shifted values. */
  function Pack(a: Rect): (k: nat)
    ensures k < B * B * B * B
  {
    ((a.x * B + a.y) * B + a.width) * B + a.height
  }

  /** The lexicographic order on (x, y, width, height). */
  predicate RectLess(a: Rect, b: Rect) {
    a.x < b.x || (a.x == b.x && (a.y < b.y || (a.y == b.y &&
      (a.width < b.width || (a.width == b.width && a.height < b.height)))))
  }

  /** Comparing two-digit numbers in base B compares the high digits first. */
  lemma TwoDigits(h1: nat, l1: nat, h2: nat, l2: nat)
    requires l1 < B && l2 < B
    ensures h1 * B + l1 < h2 * B + l2 <==> h1 < h2 || (h1 == h2 && l1 < l2)
    ensures h1 * B + l1 == h2 * B + l2 <==> h1 == h2 && l1 == l2
  {
    if h1 < h2 {
      MulLe(h1 + 1, h2, B);
    } else if h2 < h1 {
      MulLe(h2 + 1, h1, B);
    }
  }

  /** Sorting by the packed key is sorting lexicographically by (x, y,
      width, height), and equal keys mean equal areas. */
  lemma PackOrder(a: Rect, b: Rect)
    ensures Pack(a) < Pack(b) <==> RectLess(a, b)
    ensures Pack(a) == Pack(b) <==> a == b
  {
    var xa, xb := a.x * B + a.y, b.x * B + b.y;
    var wa, wb := xa * B + a.width, xb * B + b.width;
    TwoDigits(a.x, a.y, b.x, b.y);
    TwoDigits(xa, a.width, xb, b.width);
    TwoDigits(wa, a.height, wb, b.height);
  }

  /** The packed-key comparison `sort_by` uses. */
  predicate PackLess(a: Rect, b: Rect) {
    Pack(a) < Pack(b)
  }

  /** The key order is a strict total order on areas. */
  lemma PackLessIsStrictOrder()
    ensures StrictOrder((a: Rect, b: Rect) => PackLess(a, b))
  {
    forall a: Rect, b: Rect | a != b
      ensures PackLess(a, b) || PackLess(b, a)
    {
      PackOrder(a, b);
    }
  }

  /** The areas the spans carry, in order, skipping spans without one. */
  function SomeAreas(spans: seq<Span>): (r: seq<Rect>)
    ensures forall a :: a in r <==> exists i | 0 <= i < |spans| :: spans[i].area == Some(a)
  {
    if spans == [] then []
    else
      var rest := SomeAreas(spans[1..]);
      assert forall i | 1 <= i < |spans| :: spans[i] == spans[1..][i - 1];
      if spans[0].area.Some? then [spans[0].area.value] + rest else rest
  }

  /** `sort_by(pack)` then `dedup`. */
  function SortedAreas(areas: seq<Rect>): seq<Rect> {
    SortDedup(areas, (a: Rect, b: Rect) => PackLess(a, b))
  }

  class AreaRegistry {
    /** The distinct areas, in key order. */
    var rects: seq<Rect>

    ghost predicate Valid()
      reads this
    {
      StrictlySorted(rects, (a: Rect, b: Rect) => PackLess(a, b))
    }

    /** `from`: every area of the tree, each once, sorted by the packed
        key; the result is the only such list, whatever sorting algorithm
        produced it. */
    constructor From(root: Span)
      ensures Valid()
      ensures forall a :: a in rects <==> exists i | 0 <= i < |Preorder(root)| :: Preorder(root)[i].area == Some(a)
      ensures forall i, j | 0 <= i < j < |rects| :: RectLess(rects[i], rects[j])
    {
      var spans := Collect(root);
      rects := SortedAreas(SomeAreas(spans));
      new;
      PackLessIsStrictOrder();
      SortDedupSorted(SomeAreas(spans), (a: Rect, b: Rect) => PackLess(a, b));
      forall i, j | 0 <= i < j < |rects|
        ensures RectLess(rects[i], rects[j])
      {
        assert PackLess(rects[i], rects[j]);
        PackOrder(rects[i], rects[j]);
      }
    }

    /** `id_of`: three blanks for no area, "r#" and the 1-based position
        for a registered one; None where the source's `unwrap` panics, for
        an area that was never registered. */
    function IdOf(area: Option<Rect>): (r: Option<string>)
      reads this
      ensures area.None? ==> r == Some("   ")
      ensures area.Some? ==> (r.Some? <==> area.value in rects)
      ensures area.Some? && r.Some? ==>
        exists i | 0 <= i < |rects| :: rects[i] == area.value && r.value == "r#" + NatToString(i + 1)
    {
      match area
      case None => Some("   ")
      case Some(a) => if a in rects then Some("r#" + NatToString(FirstIndex(rects, a) + 1)) else None
    }

    /** `entries`: one (identifier, area) pair per area, in key order. */
    function Entries(): (r: seq<(string, Rect)>)
      reads this
      ensures |r| == |rects|
      ensures forall i | 0 <= i < |r| :: r[i].1 == rects[i]
    {
      seq(|rects|, i requires 0 <= i < |rects| reads this => ("r#" + NatToString(i + 1), rects[i]))
    }

    /** Each entry carries the identifier `id_of` gives its area. */
    lemma EntriesMatchIdOf(i: nat)
      requires Valid() && i < |rects|
      ensures IdOf(Some(rects[i])) == Some(Entries()[i].0)
    {
      PackLessIsStrictOrder();
      SortedDistinct(rects, (a: Rect, b: Rect) => PackLess(a, b));
      FirstIndexOfDistinct(rects, i);
    }

    /** Distinct registered areas get distinct identifiers, and all of
        them differ from the identifier of no area. */
    lemma IdOfDistinguishes(a: Rect, b: Rect)
      requires IdOf(Some(a)).Some? && IdOf(Some(b)).Some?
      ensures IdOf(Some(a)) == IdOf(Some(b)) <==> a == b
      ensures IdOf(Some(a)) != IdOf(None)
    {
      var i, j := FirstIndex(rects, a), FirstIndex(rects, b);
      var si, sj := "r#" + NatToString(i + 1), "r#" + NatToString(j + 1);
      if IdOf(Some(a)) == IdOf(Some(b)) {
        assert si[2..] == NatToString(i + 1) && sj[2..] == NatToString(j + 1);
        NatToStringInjective(i + 1, j + 1);
      }
      assert "   "[0] != si[0];
    }
  }
}
