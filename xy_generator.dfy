/** The generator of the points of a box in x-major order: x outermost,
  * y innermost, each from the lowest to the highest value the box allows. */
module XyGenerators {
  import opened Ints
  import opened Geometry
  import opened Orders

  /** `first_in` does not overflow: a lower end is not `Excluded(i32::MAX)`. */
  predicate LowFits(b: Bound)
  {
    b.Excluded? ==> b.v < I32_MAX
  }

  /** `last_in` does not overflow: an upper end is not `Excluded(i32::MIN)`. */
  predicate HighFits(b: Bound)
  {
    b.Excluded? ==> b.v > I32_MIN
  }

  predicate Representable(area: BBox)
  {
    LowFits(area.x.lo) && LowFits(area.y.lo) && HighFits(area.x.hi) && HighFits(area.y.hi)
  }

  /** Both upper ends are given. */
  predicate Bounded(area: BBox)
  {
    !area.x.hi.Unbounded? && !area.y.hi.Unbounded?
  }

  /** `first_in`: the lowest value above the lower end, `i32::MIN` without one. */
  function FirstIn(iv: Interval): i32
    requires LowFits(iv.lo)
  {
    match iv.lo
    case Included(l) => l
    case Excluded(l) => l + 1
    case Unbounded => I32_MIN
  }

  /** `last_in`: the highest value below the upper end, and `i32::MIN`,
    * not `i32::MAX`, without one. */
  function LastIn(iv: Interval): i32
    requires HighFits(iv.hi)
  {
    match iv.hi
    case Included(h) => h
    case Excluded(h) => h - 1
    case Unbounded => I32_MIN
  }

  /** `XYGenerator::first`. */
  function First(area: BBox): Point
    requires Representable(area)
  {
    Point(FirstIn(area.x), FirstIn(area.y))
  }

  /** `XYGenerator::last`. */
  function Last(area: BBox): Point
    requires Representable(area)
  {
    Point(LastIn(area.x), LastIn(area.y))
  }

  /** The box walked by the generator: from `first` to `last` on each axis. */
  predicate InBox(area: BBox, p: Point)
    requires Representable(area)
  {
    First(area).x <= p.x <= Last(area).x && First(area).y <= p.y <= Last(area).y
  }

  /** The box has at least one point. */
  predicate NonEmpty(area: BBox)
    requires Representable(area)
  {
    First(area).x <= Last(area).x && First(area).y <= Last(area).y
  }

  /** `next` does not overflow: it moves to `x + 1` only below `i32::MAX`. */
  predicate NextFits(area: BBox, pt: Point)
    requires Representable(area)
  {
    var first, last := First(area), Last(area);
    pt == last || pt.x > last.x || pt.x < first.x || pt.y < first.y || pt.y < last.y || pt.x < I32_MAX
  }

  /** `XYGenerator::next`: `None` at `last` and right of the box; `first`
    * left of it; the bottom of the column below it; the bottom of the next
    * column from the top row or above it; the point above otherwise. */
  function Next(area: BBox, pt: Point): Option<Point>
    requires Representable(area) && NextFits(area, pt)
  {
    var first, last := First(area), Last(area);
    if pt == last || pt.x > last.x then None
    else if pt.x < first.x then Some(first)
    else if pt.y < first.y then Some(Point(pt.x, first.y))
    else if pt.y >= last.y then Some(Point(pt.x + 1, first.y))
    else Some(Point(pt.x, pt.y + 1))
  }

  // ---------------------------------------------------------------------
  // The bounds

  /** `first_in` is the lowest value above the lower end. */
  lemma FirstInSpec(iv: Interval, v: i32)
    requires LowFits(iv.lo)
    ensures AboveLow(iv.lo, v) <==> FirstIn(iv) <= v
  {
  }

  /** `last_in` is the highest value below a given upper end. */
  lemma LastInSpec(iv: Interval, v: i32)
    requires HighFits(iv.hi) && !iv.hi.Unbounded?
    ensures BelowHigh(iv.hi, v) <==> v <= LastIn(iv)
  {
  }

  /** For an area with both upper ends given, the box the generator walks
    * is exactly the set of points the area holds. */
  lemma BoxHolds(area: BBox, p: Point)
    requires Representable(area) && Bounded(area)
    ensures Holds(area, p) <==> InBox(area, p)
  {
    FirstInSpec(area.x, p.x);
    FirstInSpec(area.y, p.y);
    LastInSpec(area.x, p.x);
    LastInSpec(area.y, p.y);
  }

  /** As written, `last_in(Unbounded)` is `i32::MIN`: on the area `(0, 0)..`
    * the generator stops after its first point, though the area holds
    * (0, 1). */
  lemma UnboundedWalkStops()
    ensures Representable(BBox(Interval(Included(0), Unbounded), Interval(Included(0), Unbounded)))
    ensures First(BBox(Interval(Included(0), Unbounded), Interval(Included(0), Unbounded))) == Point(0, 0)
    ensures Next(BBox(Interval(Included(0), Unbounded), Interval(Included(0), Unbounded)), Point(0, 0)) == None
    ensures Holds(BBox(Interval(Included(0), Unbounded), Interval(Included(0), Unbounded)), Point(0, 1))
  {
  }

  /** `last_in` as evidently intended: `i32::MAX` without an upper end. */
  function LastInIntended(iv: Interval): i32
    requires HighFits(iv.hi)
  {
    match iv.hi
    case Included(h) => h
    case Excluded(h) => h - 1
    case Unbounded => I32_MAX
  }

  /** The intended `last_in` is the highest value below every upper end,
    * given or not. */
  lemma LastInIntendedSpec(iv: Interval, v: i32)
    requires HighFits(iv.hi)
    ensures BelowHigh(iv.hi, v) <==> v <= LastInIntended(iv)
  {
  }

  // ---------------------------------------------------------------------
  // The walk

  /** How far a point is from the end of the walk, column first. */
  function ColumnsLeft(area: BBox, p: Point): nat
    requires Representable(area)
  {
    if p.x > Last(area).x then 0 else Last(area).x + 1 - p.x
  }

  function RowsLeft(p: Point): nat
  {
    I32_MAX + 1 - p.y
  }

  /** Every step of `next` moves forward in xy order and closer to the end
    * of the walk, so a walk always ends. */
  lemma NextAdvances(area: BBox, p: Point)
    requires Representable(area) && NextFits(area, p) && Next(area, p).Some?
    ensures Before(p, Next(area, p).value)
    ensures ColumnsLeft(area, Next(area, p).value) < ColumnsLeft(area, p) ||
      (ColumnsLeft(area, Next(area, p).value) == ColumnsLeft(area, p) && RowsLeft(Next(area, p).value) < RowsLeft(p))
  {
  }

  /** `first` is the least point of a non-empty box in xy order. */
  lemma FirstLeast(area: BBox, r: Point)
    requires Representable(area) && InBox(area, r)
    ensures InBox(area, First(area)) && !Before(r, First(area))
  {
  }

  /** Inside the box, `next` is defined, `None` exactly at `last`, and
    * otherwise the following point of the box in xy order: no point of the
    * box lies strictly between. */
  lemma NextSuccessor(area: BBox, p: Point, r: Point)
    requires Representable(area) && InBox(area, p)
    ensures NextFits(area, p)
    ensures Next(area, p).None? <==> p == Last(area)
    ensures Next(area, p).Some? ==> InBox(area, Next(area, p).value) && Before(p, Next(area, p).value)
    ensures Next(area, p).Some? && InBox(area, r) && Before(p, r) ==> !Before(r, Next(area, p).value)
    ensures InBox(area, r) ==> !Before(Last(area), r)
  {
  }

  /** The points visited from `p` on, `p` included. */
  function Walk(area: BBox, p: Point): seq<Point>
    requires Representable(area) && InBox(area, p)
    decreases ColumnsLeft(area, p), RowsLeft(p)
  {
    NextSuccessor(area, p, p);
    match Next(area, p)
    case None => [p]
    case Some(q) =>
      NextAdvances(area, p);
      [p] + Walk(area, q)
  }

  /** The walk from a point of the box visits exactly the points of the box
    * from that point on, in increasing xy order, and ends at `last`. */
  lemma {:induction false} WalkSpec(area: BBox, p: Point, q: Point)
    requires Representable(area) && InBox(area, p)
    ensures q in Walk(area, p) <==> InBox(area, q) && !Before(q, p)
    ensures Increasing(Walk(area, p))
    ensures Walk(area, p)[|Walk(area, p)| - 1] == Last(area)
    decreases ColumnsLeft(area, p), RowsLeft(p)
  {
    NextSuccessor(area, p, q);
    var w := Walk(area, p);
    match Next(area, p)
    case None =>
      assert w == [p];
    case Some(r) =>
      NextAdvances(area, p);
      WalkSpec(area, r, q);
      var rest := Walk(area, r);
      assert w == [p] + rest;
      forall j | 0 <= j < |rest|
        ensures Before(p, rest[j])
      {
        WalkSpec(area, r, rest[j]);
        BeforeTotal(p, r, rest[j]);
      }
  }

  /** Walking from `first` visits every point of a non-empty box once, in
    * xy order. */
  lemma WalkFromFirst(area: BBox, q: Point)
    requires Representable(area) && NonEmpty(area)
    ensures InBox(area, First(area))
    ensures q in Walk(area, First(area)) <==> InBox(area, q)
    ensures Increasing(Walk(area, First(area)))
  {
    FirstLeast(area, First(area));
    WalkSpec(area, First(area), q);
    if InBox(area, q) {
      FirstLeast(area, q);
    }
  }

  /** The walk over any box stays overflow-free: either the box is
    * non-empty, or its last column is below `i32::MAX`. */
  predicate WalkSafe(area: BBox)
    requires Representable(area)
  {
    NonEmpty(area) || Last(area).x < I32_MAX
  }

  /** The points a walk from `first` can reach, over any box: `first`, or a
    * point from the first column to just past the last, and from the first
    * row to the last (or the first, when the rows are empty). */
  predicate Walking(area: BBox, p: Point)
    requires Representable(area)
  {
    var first, last := First(area), Last(area);
    p == first ||
    (first.x <= p.x <= last.x + 1 && first.y <= p.y && (p.y <= last.y || p.y == first.y))
  }

  /** A walk from `first` never overflows and stays among those points. */
  lemma WalkingNext(area: BBox, p: Point)
    requires Representable(area) && WalkSafe(area) && Walking(area, p)
    ensures NextFits(area, p)
    ensures Next(area, p).Some? ==> Walking(area, Next(area, p).value)
  {
  }

  // ---------------------------------------------------------------------
  // The program's test cases

  const TestArea: BBox := BBox(Interval(Included(0), Included(5)), Interval(Included(0), Included(5)))

  lemma GeneratorExamples()
    ensures Representable(TestArea)
    ensures Next(TestArea, Point(0, 0)) == Some(Point(0, 1))
    ensures Next(TestArea, Point(0, 5)) == Some(Point(1, 0))
    ensures Next(TestArea, Point(4, 5)) == Some(Point(5, 0))
    ensures Next(TestArea, Point(5, 4)) == Some(Point(5, 5))
    ensures Next(TestArea, Point(5, 5)) == None
    ensures Next(TestArea, Point(-2, -2)) == Some(Point(0, 0))
    ensures Next(TestArea, Point(-2, 2)) == Some(Point(0, 0))
    ensures Next(TestArea, Point(-2, 7)) == Some(Point(0, 0))
    ensures Next(TestArea, Point(2, -2)) == Some(Point(2, 0))
    ensures Next(TestArea, Point(2, 7)) == Some(Point(3, 0))
    ensures Next(TestArea, Point(7, -2)) == None
    ensures Next(TestArea, Point(7, 2)) == None
    ensures Next(TestArea, Point(7, 7)) == None
  {
  }
}
