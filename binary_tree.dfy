/** The sorted-vector set of live cells: a vector kept strictly increasing
  * in xy order, searched by bisection. */
module BinaryTrees {
  import opened Ints
  import opened Geometry
  import opened Orders
  import opened XyGenerators

  /** `binary_search_by(|pt| cmp_xy_order(pt, p))` on a strictly increasing
    * sequence: `Ok` with the index of `p`, or `Err` with the index where
    * `p` would go, everything before it smaller and everything from it on
    * larger. */
  method BinarySearch(s: seq<Point>, p: Point) returns (r: Result<nat, nat>)
    requires Increasing(s)
    ensures r.Ok? ==> r.value < |s| && s[r.value] == p
    ensures r.Err? ==> r.error <= |s| && p !in s
    ensures r.Err? ==> forall i :: 0 <= i < r.error ==> Before(s[i], p)
    ensures r.Err? ==> forall i :: r.error <= i < |s| ==> Before(p, s[i])
  {
    var lo, hi := 0, |s|;
    while lo < hi
      invariant 0 <= lo <= hi <= |s|
      invariant forall i :: 0 <= i < lo ==> Before(s[i], p)
      invariant forall i :: hi <= i < |s| ==> Before(p, s[i])
    {
      var mid := (lo + hi) / 2;
      match CmpXy(s[mid], p)
      case Less =>
        forall i | 0 <= i <= mid
          ensures Before(s[i], p)
        {
          if i < mid {
            BeforeTotal(s[i], s[mid], p);
          }
        }
        lo := mid + 1;
      case Greater =>
        forall i | mid <= i < |s|
          ensures Before(p, s[i])
        {
          CmpXySpec(s[mid], p);
          if mid < i {
            BeforeTotal(p, s[mid], s[i]);
          }
        }
        hi := mid;
      case Equal =>
        CmpXySpec(s[mid], p);
        return Ok(mid);
    }
    forall i | 0 <= i < |s|
      ensures s[i] != p
    {
      BeforeTotal(s[i], p, p);
    }
    return Err(lo);
  }

  /** The insertion shared by `insert` and `register`: a cell the bisection
    * misses goes at its index, so the sequence stays increasing and gains
    * exactly that cell; a present cell changes nothing. */
  method InsertSorted(s: seq<Point>, p: Point) returns (t: seq<Point>)
    requires Increasing(s)
    ensures Increasing(t)
    ensures forall q :: q in t <==> q in s || q == p
    ensures p in s ==> t == s
  {
    var res := BinarySearch(s, p);
    t := s;
    if res.Err? {
      InsertAt(s, p, res.error);
      t := s[..res.error] + [p] + s[res.error..];
    }
  }

  /** A point put at the index where it belongs keeps the sequence
    * increasing and adds just itself. */
  lemma InsertAt(s: seq<Point>, p: Point, idx: nat)
    requires Increasing(s) && idx <= |s|
    requires forall i :: 0 <= i < idx ==> Before(s[i], p)
    requires forall i :: idx <= i < |s| ==> Before(p, s[i])
    ensures Increasing(s[..idx] + [p] + s[idx..])
    ensures forall q :: q in s[..idx] + [p] + s[idx..] <==> q in s || q == p
  {
    var t := s[..idx] + [p] + s[idx..];
    assert forall i :: 0 <= i < |t| ==> t[i] == if i < idx then s[i] else if i == idx then p else s[i - 1];
    forall q
      ensures q in t <==> q in s || q == p
    {
      if q in s {
        var i :| 0 <= i < |s| && s[i] == q;
        assert t[if i < idx then i else i + 1] == q;
      }
    }
  }

  /** Dropping the point at `idx` keeps the sequence increasing and loses
    * just that point. */
  lemma RemoveAt(s: seq<Point>, idx: nat)
    requires Increasing(s) && idx < |s|
    ensures Increasing(s[..idx] + s[idx + 1..])
    ensures forall q :: q in s[..idx] + s[idx + 1..] <==> q in s && q != s[idx]
  {
    var r := s[..idx] + s[idx + 1..];
    assert forall i :: 0 <= i < |r| ==> r[i] == if i < idx then s[i] else s[i + 1];
    forall q
      ensures q in r <==> q in s && q != s[idx]
    {
      if q in s && q != s[idx] {
        var i :| 0 <= i < |s| && s[i] == q;
        assert r[if i < idx then i else i - 1] == q;
      }
      if q in r {
        var i :| 0 <= i < |r| && r[i] == q;
        if i < idx {
          assert Before(s[i], s[idx]);
        } else {
          assert Before(s[idx], s[i + 1]);
        }
      }
    }
  }

  /** The points of `s` that `area` holds, in the order of `s`. */
  function Filter(area: BBox, s: seq<Point>): (r: seq<Point>)
    ensures |r| <= |s|
  {
    if s == [] then []
    else Filter(area, s[..|s| - 1]) + (if Holds(area, s[|s| - 1]) then [s[|s| - 1]] else [])
  }

  /** The filter keeps exactly the held points, in order. */
  lemma {:induction false} FilterSpec(area: BBox, s: seq<Point>, p: Point)
    ensures p in Filter(area, s) <==> p in s && Holds(area, p)
    ensures Increasing(s) ==> Increasing(Filter(area, s))
    ensures forall q :: q in Filter(area, s) ==> q in s
    decreases |s|
  {
    if s != [] {
      var init := s[..|s| - 1];
      assert s == init + [s[|s| - 1]];
      FilterSpec(area, init, p);
      forall q | q in Filter(area, init)
        ensures q in s
      {
        FilterSpec(area, init, q);
      }
      if Increasing(s) {
        assert Increasing(init);
        var f := Filter(area, init);
        forall i | 0 <= i < |f|
          ensures Before(f[i], s[|s| - 1])
        {
          FilterSpec(area, init, f[i]);
          var j :| 0 <= j < |init| && init[j] == f[i];
          assert init[j] == s[j];
        }
      }
    }
  }

  /** Points the area does not hold add nothing to the filter. */
  lemma {:induction false} FilterSkip(area: BBox, s: seq<Point>, k: nat, j: nat)
    requires k <= j <= |s|
    requires forall i :: k <= i < j ==> !Holds(area, s[i])
    ensures Filter(area, s[..j]) == Filter(area, s[..k])
    decreases j
  {
    if k < j {
      assert s[..j][..j - 1] == s[..j - 1];
      FilterSkip(area, s, k, j - 1);
    }
  }

  /** One held point at the end of the prefix joins the filter. */
  lemma FilterHit(area: BBox, s: seq<Point>, j: nat)
    requires j < |s| && Holds(area, s[j])
    ensures Filter(area, s[..j + 1]) == Filter(area, s[..j]) + [s[j]]
  {
    assert s[..j + 1][..j] == s[..j];
  }

  /** The head of a strictly increasing sequence comes before every other
    * point of it, and the tail holds exactly those other points. */
  lemma HeadLeast(a: seq<Point>, q: Point)
    requires Increasing(a) && a != []
    ensures q in a ==> q == a[0] || Before(a[0], q)
    ensures q in a[1..] <==> q in a && q != a[0]
  {
    if q in a {
      var k :| 0 <= k < |a| && a[k] == q;
      if k > 0 {
        assert q in a[1..] by { assert a[1..][k - 1] == q; }
        BeforeTotal(a[0], q, q);
      }
    }
    if q in a[1..] {
      var k :| 0 <= k < |a[1..]| && a[1..][k] == q;
      assert Before(a[0], a[k + 1]);
      BeforeTotal(a[0], q, q);
    }
  }

  /** Sequences with the same points are empty together. */
  lemma BothEmpty(a: seq<Point>, b: seq<Point>)
    requires forall q :: q in a <==> q in b
    ensures a == [] <==> b == []
  {
    if a != [] {
      assert a[0] in b;
    }
    if b != [] {
      assert b[0] in a;
    }
  }

  /** Two strictly increasing sequences with the same points are equal: the
    * cells determine the vector. */
  lemma {:induction false} SameCells(a: seq<Point>, b: seq<Point>)
    requires Increasing(a) && Increasing(b)
    requires forall q :: q in a <==> q in b
    ensures a == b
    decreases |a|
  {
    BothEmpty(a, b);
    if a != [] && b != [] {
      HeadLeast(a, b[0]);
      HeadLeast(b, a[0]);
      if a[0] != b[0] {
        BeforeTotal(a[0], b[0], a[0]);
      }
      forall q
        ensures q in a[1..] <==> q in b[1..]
      {
        HeadLeast(a, q);
        HeadLeast(b, q);
      }
      SameCells(a[1..], b[1..]);
      assert a == [a[0]] + a[1..] && b == [b[0]] + b[1..];
    }
  }

  /** `BinaryTree`: the cells, strictly increasing in xy order. */
  class BinaryTree {
    var elements: seq<Point>

    ghost predicate Valid()
      reads this
    {
      Increasing(elements)
    }

    /** `BinaryTree::new`: no cells. */
    constructor()
      ensures elements == [] && Valid()
    {
      elements := [];
    }

    /** `has`: the bisection finds the cell. */
    method Has(p: Point) returns (b: bool)
      requires Valid()
      ensures b <==> p in elements
    {
      var res := BinarySearch(elements, p);
      b := res.Ok?;
    }

    /** `insert`: the cell goes where the bisection misses it; a present
      * cell leaves the vector as it was. */
    method Insert(p: Point)
      requires Valid()
      modifies this
      ensures Valid()
      ensures forall q :: q in elements <==> q in old(elements) || q == p
      ensures p in old(elements) ==> elements == old(elements)
    {
      elements := InsertSorted(elements, p);
    }

    /** `remove`: the matching cell goes; an absent cell leaves the vector
      * as it was. */
    method Remove(p: Point)
      requires Valid()
      modifies this
      ensures Valid()
      ensures forall q :: q in elements <==> q in old(elements) && q != p
      ensures p !in old(elements) ==> elements == old(elements)
    {
      var res := BinarySearch(elements, p);
      if res.Ok? {
        RemoveAt(elements, res.value);
        elements := elements[..res.value] + elements[res.value + 1..];
      }
    }

    /** `search`: walks the points of the area with the generator while
      * bisecting the rest of the vector for each. The result is always
      * increasing and made of cells; for an area with both upper ends given
      * and at least one point, it is exactly the cells the area holds. */
    method Search(area: BBox) returns (result: seq<Point>)
      requires Valid() && Representable(area) && WalkSafe(area)
      ensures Increasing(result)
      ensures forall q :: q in result ==> q in elements
      ensures Bounded(area) && NonEmpty(area) ==> result == Filter(area, elements)
    {
      ghost var exact := Bounded(area) && NonEmpty(area);
      var cells := elements;
      result := [];
      var point := First(area);
      var k: nat := 0;
      SearchStart(area, cells, exact);
      while k < |cells|
        invariant k <= |cells|
        invariant SearchReady(area, cells, k, result, point, exact)
        decreases ColumnsLeft(area, point), RowsLeft(point)
      {
        var stop;
        k, result, stop := SearchPoint(area, cells, k, result, point, exact);
        if stop {
          break;
        }
        WalkingNext(area, point);
        var nx := Next(area, point);
        if nx.None? {
          SearchEnd(area, cells, k, result, point, exact);
          k := |cells|;
          break;
        }
        SearchNext(area, cells, k, result, point, exact);
        NextAdvances(area, point);
        point := nx.value;
      }
      SearchResult(area, cells, k, result, point, exact);
    }
  }

  /** One round of `search`'s loop, up to the step of the generator: the
    * cells are searched for `point` from index `k` on (the slice); a hit
    * joins the result and the slice moves past it, a miss moves the slice
    * to the bisection's index, and a miss past the end stops the search. */
  method SearchPoint(area: BBox, cells: seq<Point>, k: nat, result: seq<Point>, point: Point, ghost exact: bool)
    returns (k': nat, result': seq<Point>, stop: bool)
    requires Representable(area) && Increasing(cells) && k < |cells|
    requires SearchReady(area, cells, k, result, point, exact)
    ensures SearchDone(area, cells, k', result', point, exact)
    ensures stop ==> k' == |cells|
  {
    stop := false;
    if cells[k] == point {
      SearchHit(area, cells, k, k, result, point, exact);
      result' := result + [point];
      k' := k + 1;
    } else {
      var res := BinarySearch(cells[k..], point);
      if res.Ok? {
        SearchHit(area, cells, k, k + res.value, result, point, exact);
        result' := result + [point];
        k' := k + res.value + 1;
      } else {
        SearchMiss(area, cells, cells[k..], k, res.error, result, point, exact);
        result' := result;
        k' := k + res.error;
        stop := res.error >= |cells| - k;
      }
    }
  }

  // ---------------------------------------------------------------------
  // The loop of `search`

  /** Before handling `point`: the result is increasing, made of cells and
    * below `point`; for an exact area, `point` is in the box, the result
    * is the filter of the cells passed, and no cell left before `point` is
    * held. */
  ghost predicate SearchReady(area: BBox, elements: seq<Point>, k: nat, result: seq<Point>, point: Point, exact: bool)
    requires Representable(area)
  {
    k <= |elements| && Walking(area, point) && Increasing(result) &&
    (forall i :: 0 <= i < |result| ==> Before(result[i], point) && result[i] in elements) &&
    (exact ==> Bounded(area) && NonEmpty(area) && InBox(area, point) && result == Filter(area, elements[..k])) &&
    (exact ==> forall i :: k <= i < |elements| && Before(elements[i], point) ==> !Holds(area, elements[i]))
  }

  /** After handling `point`: the result reaches at most `point`, and every
    * cell left comes after it. */
  ghost predicate SearchDone(area: BBox, elements: seq<Point>, k: nat, result: seq<Point>, point: Point, exact: bool)
    requires Representable(area)
  {
    k <= |elements| && Walking(area, point) && Increasing(result) &&
    (forall i :: 0 <= i < |result| ==> (result[i] == point || Before(result[i], point)) && result[i] in elements) &&
    (forall i :: k <= i < |elements| ==> Before(point, elements[i])) &&
    (exact ==> Bounded(area) && NonEmpty(area) && InBox(area, point) && result == Filter(area, elements[..k]))
  }

  lemma SearchStart(area: BBox, elements: seq<Point>, exact: bool)
    requires Representable(area) && exact == (Bounded(area) && NonEmpty(area))
    ensures SearchReady(area, elements, 0, [], First(area), exact)
  {
    if exact {
      FirstLeast(area, First(area));
      forall i | 0 <= i < |elements| && Before(elements[i], First(area))
        ensures !Holds(area, elements[i])
      {
        BoxHolds(area, elements[i]);
        if InBox(area, elements[i]) {
          FirstLeast(area, elements[i]);
        }
      }
    }
  }

  /** The cell at `j` is `point`: the cells from `k` up to it are passed
    * and `point` joins the result. */
  lemma SearchHit(area: BBox, elements: seq<Point>, k: nat, j: nat, result: seq<Point>, point: Point, exact: bool)
    requires Representable(area) && Increasing(elements)
    requires SearchReady(area, elements, k, result, point, exact)
    requires k <= j < |elements| && elements[j] == point
    ensures SearchDone(area, elements, j + 1, result + [point], point, exact)
  {
    forall i | k <= i < j
      ensures Before(elements[i], point)
    {
    }
    if exact {
      FilterSkip(area, elements, k, j);
      BoxHolds(area, point);
      FilterHit(area, elements, j);
    }
  }

  /** `point` is not a cell: the cells before the bisection's index are
    * passed. */
  lemma SearchMiss(area: BBox, elements: seq<Point>, slice: seq<Point>, k: nat, idx: nat, result: seq<Point>, point: Point, exact: bool)
    requires Representable(area)
    requires SearchReady(area, elements, k, result, point, exact)
    requires slice == elements[k..] && idx <= |slice|
    requires forall i :: 0 <= i < idx ==> Before(slice[i], point)
    requires forall i :: idx <= i < |slice| ==> Before(point, slice[i])
    ensures SearchDone(area, elements, k + idx, result, point, exact)
  {
    forall i | k <= i < k + idx
      ensures Before(elements[i], point)
    {
      assert elements[i] == slice[i - k];
    }
    forall i | k + idx <= i < |elements|
      ensures Before(point, elements[i])
    {
      assert elements[i] == slice[i - k];
    }
    forall i | 0 <= i < |result|
      ensures result[i] == point || Before(result[i], point)
    {
    }
    if exact {
      FilterSkip(area, elements, k, k + idx);
    }
  }

  /** Moving the walk to the next point keeps the loop's facts. */
  lemma SearchNext(area: BBox, elements: seq<Point>, k: nat, result: seq<Point>, point: Point, exact: bool)
    requires Representable(area) && WalkSafe(area)
    requires SearchDone(area, elements, k, result, point, exact)
    requires NextFits(area, point) && Next(area, point).Some?
    ensures SearchReady(area, elements, k, result, Next(area, point).value, exact)
  {
    var q := Next(area, point).value;
    WalkingNext(area, point);
    NextAdvances(area, point);
    forall i | 0 <= i < |result|
      ensures Before(result[i], q)
    {
      if result[i] != point {
        BeforeTotal(result[i], point, q);
      }
    }
    if exact {
      NextSuccessor(area, point, point);
      forall i | k <= i < |elements| && Before(elements[i], q)
        ensures !Holds(area, elements[i])
      {
        NextSuccessor(area, point, elements[i]);
        BoxHolds(area, elements[i]);
      }
    }
  }

  /** The walk ends at `last`: no cell left is held, so the result is the
    * filter of all the cells. */
  lemma SearchEnd(area: BBox, elements: seq<Point>, k: nat, result: seq<Point>, point: Point, exact: bool)
    requires Representable(area)
    requires SearchDone(area, elements, k, result, point, exact)
    requires NextFits(area, point) && Next(area, point).None?
    ensures SearchDone(area, elements, |elements|, result, point, exact)
  {
    if exact {
      NextSuccessor(area, point, point);
      forall i | k <= i < |elements|
        ensures !Holds(area, elements[i])
      {
        NextSuccessor(area, point, elements[i]);
        BoxHolds(area, elements[i]);
      }
      FilterSkip(area, elements, k, |elements|);
    }
  }

  /** Every cell is passed, before or after handling the last point. */
  lemma SearchResult(area: BBox, elements: seq<Point>, k: nat, result: seq<Point>, point: Point, exact: bool)
    requires Representable(area) && k == |elements|
    requires SearchReady(area, elements, k, result, point, exact) || SearchDone(area, elements, k, result, point, exact)
    ensures Increasing(result)
    ensures forall q :: q in result ==> q in elements
    ensures exact ==> result == Filter(area, elements)
  {
    assert elements[..k] == elements;
  }

  /** A sequence whose neighbours are in order is increasing. */
  lemma {:induction false} StepsIncreasing(s: seq<Point>)
    requires forall i :: 0 < i < |s| ==> Before(s[i - 1], s[i])
    ensures Increasing(s)
    decreases |s|
  {
    if |s| > 1 {
      var init := s[..|s| - 1];
      StepsIncreasing(init);
      forall i | 0 <= i < |init|
        ensures Before(s[i], s[|s| - 1])
      {
        if i < |init| - 1 {
          BeforeTotal(s[i], s[|s| - 2], s[|s| - 1]);
        }
      }
    }
  }

  /** The program's test: the cells of (5, 5)..=(10, 10) among seven. */
  lemma SearchExample()
    ensures Filter(BBox(Interval(Included(5), Included(10)), Interval(Included(5), Included(10))),
      [Point(0, 5), Point(5, 5), Point(5, 10), Point(5, 15), Point(10, 5), Point(10, 10), Point(15, 10)])
      == [Point(5, 5), Point(5, 10), Point(10, 5), Point(10, 10)]
  {
    var area := BBox(Interval(Included(5), Included(10)), Interval(Included(5), Included(10)));
    var s := [Point(0, 5), Point(5, 5), Point(5, 10), Point(5, 15), Point(10, 5), Point(10, 10), Point(15, 10)];
    var expected := [Point(5, 5), Point(5, 10), Point(10, 5), Point(10, 10)];
    StepsIncreasing(s);
    StepsIncreasing(expected);
    FilterSpec(area, s, s[0]);
    forall q
      ensures q in Filter(area, s) <==> q in expected
    {
      FilterSpec(area, s, q);
    }
    SameCells(Filter(area, s), expected);
  }
}
