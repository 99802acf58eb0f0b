/** Points of the integer grid and the boxes used to select them.
  *
  * A box is given per axis by a pair of `Bound`s, as the geometry library
  * the program uses does; `Holds` is membership of a point, and
  * `IntervalsMeet` is the overlap test the quadtree query relies on.
  */
module Geometry {
  import opened Ints

  datatype Option<T> = None | Some(value: T)

  datatype Result<T, E> = Ok(value: T) | Err(error: E)

  datatype Point = Point(x: i32, y: i32)

  /** What one call of an iterator's `next` yields, as a sequence. */
  function Yield(r: Option<Point>): seq<Point>
  {
    if r.Some? then [r.value] else []
  }

  const Origin: Point := Point(0, 0)

  /** One end of an interval on an axis. */
  datatype Bound = Included(v: i32) | Excluded(v: i32) | Unbounded

  datatype Interval = Interval(lo: Bound, hi: Bound)

  /** An axis-aligned box: one interval per axis. */
  datatype BBox = BBox(x: Interval, y: Interval)

  predicate AboveLow(b: Bound, v: int)
  {
    match b
    case Included(l) => l <= v
    case Excluded(l) => l < v
    case Unbounded => true
  }

  predicate BelowHigh(b: Bound, v: int)
  {
    match b
    case Included(h) => v <= h
    case Excluded(h) => v < h
    case Unbounded => true
  }

  predicate InInterval(iv: Interval, v: int)
  {
    AboveLow(iv.lo, v) && BelowHigh(iv.hi, v)
  }

  /** `bbox.holds(point)`. */
  predicate Holds(bbox: BBox, p: Point)
  {
    InInterval(bbox.x, p.x) && InInterval(bbox.y, p.y)
  }

  /** The half-open range `start..end` as a box. */
  function RangeBox(start: Point, end: Point): BBox
  {
    BBox(Interval(Included(start.x), Excluded(end.x)), Interval(Included(start.y), Excluded(end.y)))
  }

  /** `q` lies in the closed 3x3 box around `c`: `c` itself or one of its
    * eight neighbours. */
  predicate Near(c: Point, q: Point)
  {
    c.x - 1 <= q.x <= c.x + 1 && c.y - 1 <= q.y <= c.y + 1
  }

  /** The coordinates of `c` are not at the ends of i32, so `c.x - 1` and
    * `c.x + 1` (and the same for y) do not overflow. */
  predicate Inner(c: Point)
  {
    I32_MIN < c.x < I32_MAX && I32_MIN < c.y < I32_MAX
  }

  /** The closed box `point![x - 1, y - 1]..=point![x + 1, y + 1]`. */
  function AroundBox(c: Point): (b: BBox)
    requires Inner(c)
    ensures forall q :: Holds(b, q) <==> Near(c, q)
  {
    BBox(Interval(Included(c.x - 1), Included(c.x + 1)), Interval(Included(c.y - 1), Included(c.y + 1)))
  }

  /** The full range `..`. */
  const FullBox: BBox := BBox(Interval(Unbounded, Unbounded), Interval(Unbounded, Unbounded))

  /** Smallest integer above a lower bound, if there is one. */
  function LowestAbove(b: Bound): Option<int>
  {
    match b
    case Included(l) => Some(l as int)
    case Excluded(l) => Some(l + 1)
    case Unbounded => None
  }

  /** Largest integer below an upper bound, if there is one. */
  function HighestBelow(b: Bound): Option<int>
  {
    match b
    case Included(h) => Some(h as int)
    case Excluded(h) => Some(h - 1)
    case Unbounded => None
  }

  function MaxLow(a: Option<int>, b: Option<int>): Option<int>
  {
    if a.None? then b else if b.None? then a else Some(if a.value < b.value then b.value else a.value)
  }

  function MinHigh(a: Option<int>, b: Option<int>): Option<int>
  {
    if a.None? then b else if b.None? then a else Some(if a.value < b.value then a.value else b.value)
  }

  /** Two intervals overlap when the largest of their lower ends does not
    * exceed the smallest of their upper ends. */
  predicate IntervalsMeet(a: Interval, b: Interval)
  {
    var lo := MaxLow(LowestAbove(a.lo), LowestAbove(b.lo));
    var hi := MinHigh(HighestBelow(a.hi), HighestBelow(b.hi));
    lo.None? || hi.None? || lo.value <= hi.value
  }

  /** `a.overlaps(b)` for two boxes. */
  predicate BoxesMeet(a: BBox, b: BBox)
  {
    IntervalsMeet(a.x, b.x) && IntervalsMeet(a.y, b.y)
  }

  lemma LowestAboveSpec(b: Bound, v: int)
    ensures AboveLow(b, v) <==> (LowestAbove(b).None? || LowestAbove(b).value <= v)
  {
  }

  lemma HighestBelowSpec(b: Bound, v: int)
    ensures BelowHigh(b, v) <==> (HighestBelow(b).None? || v <= HighestBelow(b).value)
  {
  }

  /** Overlap is exactly the existence of a common integer. */
  lemma IntervalsMeetSpec(a: Interval, b: Interval)
    ensures IntervalsMeet(a, b) <==> exists v: int :: InInterval(a, v) && InInterval(b, v)
  {
    var lo := MaxLow(LowestAbove(a.lo), LowestAbove(b.lo));
    var hi := MinHigh(HighestBelow(a.hi), HighestBelow(b.hi));
    if IntervalsMeet(a, b) {
      var v: int := if lo.Some? then lo.value else if hi.Some? then hi.value else 0;
      LowestAboveSpec(a.lo, v);
      LowestAboveSpec(b.lo, v);
      HighestBelowSpec(a.hi, v);
      HighestBelowSpec(b.hi, v);
      assert InInterval(a, v) && InInterval(b, v);
    } else {
      forall v: int | InInterval(a, v) && InInterval(b, v)
        ensures false
      {
        LowestAboveSpec(a.lo, v);
        LowestAboveSpec(b.lo, v);
        HighestBelowSpec(a.hi, v);
        HighestBelowSpec(b.hi, v);
      }
    }
  }
}
