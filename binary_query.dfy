/** The lazy range query over a sorted slice of cells: the slice shrinks
  * from the front while the generator's next point moves through the
  * area. */
module BinaryQueries {
  import opened Geometry
  import opened Orders
  import opened XyGenerators
  import opened BinaryTrees

  /** The state of a query over `area`: the slice is increasing; while a
    * next point is pending it lies in the box and no held cell of the
    * slice comes before it; once there is none, the slice holds no cell of
    * the area. */
  ghost predicate QueryState(area: BBox, slice: seq<Point>, next: Option<Point>)
  {
    Representable(area) && Bounded(area) && NonEmpty(area) && Increasing(slice) &&
    (next.Some? ==> InBox(area, next.value)) &&
    (next.Some? ==> forall i :: 0 <= i < |slice| && Holds(area, slice[i]) ==> !Before(slice[i], next.value)) &&
    (next.None? ==> forall i :: 0 <= i < |slice| ==> !Holds(area, slice[i]))
  }

  /** The filter of a concatenation is the concatenation of the filters. */
  lemma {:induction false} FilterConcat(area: BBox, s: seq<Point>, t: seq<Point>)
    ensures Filter(area, s + t) == Filter(area, s) + Filter(area, t)
    decreases |t|
  {
    if t == [] {
      assert s + t == s;
    } else {
      assert (s + t)[..|s + t| - 1] == s + t[..|t| - 1];
      FilterConcat(area, s, t[..|t| - 1]);
    }
  }

  /** A sequence without held cells filters to nothing. */
  lemma {:induction false} FilterNone(area: BBox, s: seq<Point>)
    requires forall i :: 0 <= i < |s| ==> !Holds(area, s[i])
    ensures Filter(area, s) == []
    decreases |s|
  {
    if s != [] {
      FilterNone(area, s[..|s| - 1]);
    }
  }

  /** After handling `q`, with every cell left after it, the generator's
    * step from `q` gives a valid state. */
  lemma QueryNext(area: BBox, s: seq<Point>, q: Point)
    requires Representable(area) && Bounded(area) && NonEmpty(area) && Increasing(s) && InBox(area, q)
    requires forall i :: 0 <= i < |s| ==> Before(q, s[i])
    ensures NextFits(area, q)
    ensures QueryState(area, s, Next(area, q))
  {
    NextSuccessor(area, q, q);
    forall i | 0 <= i < |s| && Holds(area, s[i])
      ensures Next(area, q).Some? && !Before(s[i], Next(area, q).value)
    {
      BoxHolds(area, s[i]);
      NextSuccessor(area, q, s[i]);
    }
  }

  /** The front cell is held: it is the first cell of the filter. */
  lemma QueryFront(area: BBox, s: seq<Point>, next: Option<Point>)
    requires QueryState(area, s, next) && s != [] && Holds(area, s[0])
    ensures NextFits(area, s[0])
    ensures Filter(area, s) == [s[0]] + Filter(area, s[1..])
    ensures QueryState(area, s[1..], Next(area, s[0]))
  {
    BoxHolds(area, s[0]);
    assert [s[0]][..0] == [];
    assert s == [s[0]] + s[1..];
    FilterConcat(area, [s[0]], s[1..]);
    QueryNext(area, s[1..], s[0]);
  }

  /** The pending point is the cell at `idx`: the cells before it are not
    * held, and it is the first cell of the filter. */
  lemma QueryHit(area: BBox, s: seq<Point>, idx: nat, p: Point)
    requires QueryState(area, s, Some(p)) && idx < |s| && s[idx] == p
    ensures NextFits(area, p)
    ensures Filter(area, s) == [p] + Filter(area, s[idx + 1..])
    ensures QueryState(area, s[idx + 1..], Next(area, p))
  {
    BoxHolds(area, p);
    forall i | 0 <= i < idx
      ensures !Holds(area, s[..idx][i])
    {
      assert Before(s[i], s[idx]);
    }
    FilterNone(area, s[..idx]);
    FilterHit(area, s, idx);
    assert s == s[..idx + 1] + s[idx + 1..];
    FilterConcat(area, s[..idx + 1], s[idx + 1..]);
    QueryNext(area, s[idx + 1..], p);
  }

  /** The pending point is not a cell: the cells before the bisection's
    * index are not held and drop out, and the generator moves on. */
  lemma QueryMiss(area: BBox, s: seq<Point>, idx: nat, p: Point)
    requires QueryState(area, s, Some(p)) && idx <= |s|
    requires forall i :: 0 <= i < idx ==> Before(s[i], p)
    requires forall i :: idx <= i < |s| ==> Before(p, s[i])
    ensures NextFits(area, p)
    ensures Filter(area, s) == Filter(area, s[idx..])
    ensures QueryState(area, s[idx..], Next(area, p))
    ensures Next(area, p).Some? ==>
      ColumnsLeft(area, Next(area, p).value) < ColumnsLeft(area, p) ||
      (ColumnsLeft(area, Next(area, p).value) == ColumnsLeft(area, p) && RowsLeft(Next(area, p).value) < RowsLeft(p))
  {
    NextSuccessor(area, p, p);
    if Next(area, p).Some? {
      NextAdvances(area, p);
    }
    forall i | 0 <= i < idx
      ensures !Holds(area, s[..idx][i])
    {
    }
    FilterNone(area, s[..idx]);
    assert s == s[..idx] + s[idx..];
    FilterConcat(area, s[..idx], s[idx..]);
    QueryNext(area, s[idx..], p);
  }

  /** `BinaryQuery`: the area, the cells not yet passed, and the next point
    * of the area to look for. */
  class BinaryQuery {
    const area: BBox
    var slice: seq<Point>
    var next: Option<Point>

    ghost predicate Valid()
      reads this
    {
      QueryState(area, slice, next)
    }

    /** `BinaryQuery::new`: the whole slice, and the generator's first
      * point. */
    constructor(area: BBox, slice: seq<Point>)
      requires Representable(area) && Bounded(area) && NonEmpty(area) && Increasing(slice)
      ensures this.area == area && this.slice == slice && next == Some(First(area))
      ensures Valid()
    {
      this.area := area;
      this.slice := slice;
      next := Some(First(area));
      new;
      FirstLeast(area, First(area));
      forall i | 0 <= i < |slice| && Holds(area, slice[i])
        ensures !Before(slice[i], First(area))
      {
        BoxHolds(area, slice[i]);
        FirstLeast(area, slice[i]);
      }
    }

    /** `next`: yields the front cell if the area holds it; otherwise
      * bisects for the pending point, yielding it on a hit and dropping the
      * cells before it, and on a miss drops the cells before the index and
      * steps the generator. What it yields is the head of the held cells of
      * the old slice, and the new slice holds the rest; `None` comes only
      * once no held cell is left, and stays. */
    method Next() returns (r: Option<Point>)
      requires Valid()
      modifies this
      ensures Valid()
      ensures Filter(area, old(slice)) == Yield(r) + Filter(area, slice)
      ensures r.None? ==> slice == [] || next.None?
      ensures old(slice) == [] || old(next).None? ==> r.None?
    {
      while slice != [] && next.Some?
        invariant Valid()
        invariant Filter(area, old(slice)) == Filter(area, slice)
        invariant old(slice) == [] || old(next).None? ==> slice == old(slice) && next == old(next)
        decreases if next.Some? then ColumnsLeft(area, next.value) + 1 else 0,
          if next.Some? then RowsLeft(next.value) else 0
      {
        var pending := next.value;
        var first := slice[0];
        if Holds(area, first) {
          QueryFront(area, slice, next);
          slice := slice[1..];
          next := XyGenerators.Next(area, first);
          return Some(first);
        }
        var res := BinarySearch(slice, pending);
        if res.Ok? {
          QueryHit(area, slice, res.value, pending);
          var point := slice[res.value];
          slice := slice[res.value + 1..];
          next := XyGenerators.Next(area, point);
          return Some(point);
        }
        QueryMiss(area, slice, res.error, pending);
        slice := slice[res.error..];
        next := XyGenerators.Next(area, pending);
      }
      if next.None? {
        FilterNone(area, slice);
      }
      return None;
    }
  }
}
