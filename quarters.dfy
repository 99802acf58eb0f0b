/** The four quarters around an origin, and the sign classification of a
  * point relative to it (`quarter` and the global quarter around (0, 0)). */
module Quarters {
  import opened Ints
  import opened Geometry

  /** Declared in this order, so `q as usize` is 0, 1, 2, 3 respectively. */
  datatype Quarter = NorthEast | NorthWest | SouthEast | SouthWest

  /** `q as usize`: the discriminant in declaration order. */
  function Index(q: Quarter): (i: nat)
    ensures i < 4
  {
    match q
    case NorthEast => 0
    case NorthWest => 1
    case SouthEast => 2
    case SouthWest => 3
  }

  /** `quarter(origin, point)`: coordinates equal to the origin's count as
    * the north or east side. */
  function QuarterOf(origin: Point, p: Point): Quarter
  {
    if p.x >= origin.x && p.y >= origin.y then NorthEast
    else if p.x >= origin.x then SouthEast
    else if p.y >= origin.y then NorthWest
    else SouthWest
  }

  /** The quarter of a point around (0, 0). */
  function GlobalQuarter(p: Point): Quarter
  {
    QuarterOf(Origin, p)
  }

  /** Each quarter is exactly one combination of the two sign tests. */
  lemma QuarterOfSpec(origin: Point, p: Point)
    ensures QuarterOf(origin, p) == NorthEast <==> p.x >= origin.x && p.y >= origin.y
    ensures QuarterOf(origin, p) == SouthEast <==> p.x >= origin.x && p.y < origin.y
    ensures QuarterOf(origin, p) == NorthWest <==> p.x < origin.x && p.y >= origin.y
    ensures QuarterOf(origin, p) == SouthWest <==> p.x < origin.x && p.y < origin.y
  {
  }

  /** Two points lie in the same quarter iff they lie on the same side of
    * the origin on both axes. */
  lemma SameQuarter(origin: Point, p: Point, r: Point)
    ensures QuarterOf(origin, p) == QuarterOf(origin, r)
        <==> (p.x >= origin.x <==> r.x >= origin.x) && (p.y >= origin.y <==> r.y >= origin.y)
  {
  }

  /** The four sign combinations around (0, 0). */
  lemma QuarterExamples()
    ensures QuarterOf(Origin, Point(1, 1)) == NorthEast
    ensures QuarterOf(Origin, Point(1, -1)) == SouthEast
    ensures QuarterOf(Origin, Point(-1, 1)) == NorthWest
    ensures QuarterOf(Origin, Point(-1, -1)) == SouthWest
  {
  }
}
