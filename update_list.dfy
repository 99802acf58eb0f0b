/** The list of cells to update: a strictly increasing vector of cells,
  * kept without repetition, and the area that guards which cells may bring
  * their neighbours in. */
module UpdateLists {
  import opened Geometry
  import opened Orders
  import opened XyGenerators
  import opened BinaryTrees

  /** One end of a range of points, `Bound<Point2<i32>>`. */
  datatype PointBound = IncludedAt(at: Point) | ExcludedAt(at: Point) | Open

  /** `UpdateArea`: the range `(start, end)` of points. */
  datatype UpdateArea = UpdateArea(start: PointBound, end: PointBound)

  /** One axis of an end of the range. */
  function AxisBound(b: PointBound, dim: nat): Bound
    requires dim < 2
  {
    match b
    case IncludedAt(p) => Included(Coord(p, dim))
    case ExcludedAt(p) => Excluded(Coord(p, dim))
    case Open => Unbounded
  }

  /** The area as a box: each end of the range bounds each axis by its own
    * coordinate. */
  function AreaBox(area: UpdateArea): BBox
  {
    BBox(Interval(AxisBound(area.start, 0), AxisBound(area.end, 0)),
      Interval(AxisBound(area.start, 1), AxisBound(area.end, 1)))
  }

  /** `(Unbounded, Unbounded)`, the area of `UpdateList::new`. */
  const Everywhere: UpdateArea := UpdateArea(Open, Open)

  /** The unbounded area holds every cell. */
  lemma EverywhereHoldsAll(p: Point)
    ensures Holds(AreaBox(Everywhere), p)
  {
  }

  /** `neighbors.walk()`: the cells of the 3x3 box around `c`, x-major. */
  function Around(c: Point): seq<Point>
    requires Inner(c)
  {
    var box := AroundBox(c);
    WalkFromFirst(box, c);
    Walk(box, First(box))
  }

  /** The walk of the 3x3 box visits `c` and its eight neighbours, each
    * once. */
  lemma AroundSpec(c: Point, q: Point)
    requires Inner(c)
    ensures q in Around(c) <==> Near(c, q)
    ensures Increasing(Around(c))
  {
    var box := AroundBox(c);
    WalkFromFirst(box, q);
    BoxHolds(box, q);
  }

  /** `UpdateList`: the area and the registered cells. */
  class UpdateList {
    var area: UpdateArea
    var cells: seq<Point>

    /** The cells are sorted by `cmp_xy_order`, without repetition. */
    ghost predicate Valid()
      reads this
    {
      Increasing(cells)
    }

    /** `UpdateList::new`: the unbounded area, no cells. */
    constructor()
      ensures area == Everywhere && cells == [] && Valid()
    {
      area := Everywhere;
      cells := [];
    }

    /** `UpdateList::inside`: the given area, no cells. */
    constructor Inside(area: UpdateArea)
      ensures this.area == area && cells == [] && Valid()
    {
      this.area := area;
      cells := [];
    }

    /** `change_area`: installs the new area and hands back the previous
      * one; the cells stay. */
    method ChangeArea(area: UpdateArea) returns (previous: UpdateArea)
      modifies this
      ensures previous == old(this.area) && this.area == area
      ensures cells == old(cells)
    {
      previous := this.area;
      this.area := area;
    }

    /** `register`: the cell joins where the bisection misses it; a cell
      * already registered leaves the list as it was. */
    method Register(cell: Point)
      requires Valid()
      modifies this
      ensures Valid() && area == old(area)
      ensures forall q :: q in cells <==> q in old(cells) || q == cell
      ensures cell in old(cells) ==> cells == old(cells)
    {
      cells := InsertSorted(cells, cell);
    }

    /** `register_with_neighbors`: nothing when the area does not hold the
      * cell; otherwise every cell of the 3x3 box around it is registered,
      * neighbours outside the area included. No cell is ever removed. */
    method RegisterWithNeighbors(cell: Point)
      requires Valid()
      requires Holds(AreaBox(area), cell) ==> Inner(cell)
      modifies this
      ensures Valid() && area == old(area)
      ensures !Holds(AreaBox(area), cell) ==> cells == old(cells)
      ensures Holds(AreaBox(area), cell) ==> forall q :: q in cells <==> q in old(cells) || Near(cell, q)
    {
      if !Holds(AreaBox(area), cell) {
        return;
      }
      var around := Around(cell);
      for i := 0 to |around|
        invariant Valid() && area == old(area)
        invariant forall q :: q in cells <==> q in old(cells) || q in around[..i]
      {
        assert around[..i + 1] == around[..i] + [around[i]];
        Register(around[i]);
      }
      assert around[..|around|] == around;
      forall q
        ensures q in cells <==> q in old(cells) || Near(cell, q)
      {
        AroundSpec(cell, q);
      }
    }
  }
}
