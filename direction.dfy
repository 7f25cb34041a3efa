/** Directions of the directional effects (sweep, slide) and the random
    per-row or per-column variance they add to their gradient. */
module Directions {
  import opened Wrappers
  import opened Terminal
  import opened SimpleRngs

  datatype Direction = LeftToRight | RightToLeft | UpToDown | DownToUp

  /** `Direction::flipped`: the opposite direction on the same axis. */
  function Flipped(d: Direction): (r: Direction)
    ensures (d.LeftToRight? || d.RightToLeft?) <==> (r.LeftToRight? || r.RightToLeft?)
  {
    match d
    case LeftToRight => RightToLeft
    case RightToLeft => LeftToRight
    case UpToDown => DownToUp
    case DownToUp => UpToDown
  }

  /** `Direction::flips_timer`: the directions that run against the axis. */
  predicate FlipsTimer(d: Direction) {
    d == RightToLeft || d == DownToUp
  }

  /** Flipping is an involution without fixed point, and it toggles whether
      the direction runs against its axis. */
  lemma FlippedInvolution(d: Direction)
    ensures Flipped(Flipped(d)) == d
    ensures Flipped(d) != d
    ensures FlipsTimer(Flipped(d)) == !FlipsTimer(d)
  {
  }

  /** The seed of a variance generator: `(width << 16) | height`. */
  function VarianceSeed(area: Rect): (seed: u32)
    ensures seed / 0x1_0000 == area.width && seed % 0x1_0000 == area.height
  {
    area.width * 0x1_0000 + area.height
  }

  /** Equal seeds come only from equal sizes: the seed packs the width and
      the height without loss. */
  lemma VarianceSeedInjective(a: Rect, b: Rect)
    requires VarianceSeed(a) == VarianceSeed(b)
    ensures a.width == b.width && a.height == b.height
  {
  }

  /** The variance `next` produces from generator state st: (0, 0) when max
      is 0, otherwise one draw from [0, max) placed on the direction's axis
      and negated against it. None is the panic of an empty range (a max
      whose u16 value reads as a negative i16). */
  function Variance(direction: Direction, max: i16, st: u32): (r: Option<(int, int)>)
    ensures max == 0 ==> r == Some((0, 0))
    ensures r.None? <==> max < 0
    ensures r.Some? && max > 0 ==> r.value.0 + r.value.1 in {Next(st) % max, -(Next(st) % max)}
  {
    if max == 0 then Some((0, 0))
    else
      var v :- SampleChecked(Next(st), 0, max);
      match direction
      case LeftToRight => Some((v, 0))
      case RightToLeft => Some((-v, 0))
      case UpToDown => Some((0, v))
      case DownToUp => Some((0, -v))
  }

  /** Every variance lies on the direction's axis, has magnitude below max,
      and points against the axis exactly for the directions that flip the
      timer. */
  lemma VarianceShape(direction: Direction, max: i16, st: u32)
    requires max > 0
    ensures Variance(direction, max, st).Some?
    ensures var (x, y) := Variance(direction, max, st).value;
      ((direction.LeftToRight? || direction.RightToLeft?) ==> y == 0 && -max < x < max)
      && ((direction.UpToDown? || direction.DownToUp?) ==> x == 0 && -max < y < max)
      && (FlipsTimer(direction) ==> x <= 0 && y <= 0)
      && (!FlipsTimer(direction) ==> x >= 0 && y >= 0)
  {
  }

  /** `DirectionalVariance`: a generator seeded from an area's size, a
      direction and the maximal variance. */
  class DirectionalVariance {
    const rng: SimpleRng
    const direction: Direction
    const max: i16

    /** `DirectionalVariance::from`: the u16 max is read as an i16. */
    constructor (area: Rect, direction: Direction, max: u16)
      ensures fresh(rng) && rng.state == VarianceSeed(area)
      ensures this.direction == direction && this.max == WrapI16(max)
    {
      rng := new SimpleRng(VarianceSeed(area));
      this.direction := direction;
      this.max := WrapI16(max);
    }

    /** `DirectionalVariance::next`: no draw when max is 0, one draw
        otherwise. */
    method Next() returns (r: Option<(int, int)>)
      modifies rng
      ensures r == Variance(direction, max, old(rng.state))
      ensures rng.state == if max > 0 then SimpleRngs.Next(old(rng.state)) else old(rng.state)
    {
      if max == 0 {
        return Some((0, 0));
      }
      var variance := rng.GenRangeI32(0, max);
      if variance.None? {
        return None;
      }
      var v := variance.value;
      match direction {
        case LeftToRight => r := Some((v, 0));
        case RightToLeft => r := Some((-v, 0));
        case UpToDown => r := Some((0, v));
        case DownToUp => r := Some((0, -v));
      }
    }
  }
}
