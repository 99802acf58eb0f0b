/** The box helpers of the quadtree: the unit box around a point and the
  * box of the parent of a node, twice as wide and aligned to its new size.
  *
  * A box is built from an anchor and a size, so it is the half-open range
  * `start..end` on each axis; `Rect` holds those two corners.
  */
module ParentBoxes {
  import opened Ints
  import opened Geometry

  datatype Rect = Rect(start: Point, end: Point)

  /** The cells of a box. */
  predicate InRect(r: Rect, p: Point)
  {
    r.start.x <= p.x < r.end.x && r.start.y <= p.y < r.end.y
  }

  /** Every cell of `inner` is a cell of `outer`. */
  predicate RectEncloses(outer: Rect, inner: Rect)
  {
    outer.start.x <= inner.start.x && inner.end.x <= outer.end.x &&
    outer.start.y <= inner.start.y && inner.end.y <= outer.end.y
  }

  /** `bbox_around`: the box of side 1 anchored at the point. */
  function BBoxAround(p: Point): Rect
    requires p.x < I32_MAX && p.y < I32_MAX
  {
    Rect(p, Point(p.x + 1, p.y + 1))
  }

  /** The parent's extent on one axis: twice the child's. */
  function ParentSize(s: i32, e: i32): int
  {
    (e - s) * 2
  }

  /** On one axis, the i32 arithmetic of `parent_bbox` does not overflow:
    * the doubled extent, `size - 1`, and the end `anchor + size`. */
  predicate AxisFits(s: i32, e: i32)
  {
    var size := ParentSize(s, e);
    I32_MIN <= size - 1 && size <= I32_MAX &&
    I32_MIN <= AndI32(s, Not(size - 1)) + size <= I32_MAX
  }

  /** `parent_bbox`: the extent doubled on each axis, and the start with
    * the bits below the new size cleared by `& !(size - 1)`. */
  function ParentBBox(child: Rect): Rect
    requires AxisFits(child.start.x, child.end.x) && AxisFits(child.start.y, child.end.y)
  {
    var sx := ParentSize(child.start.x, child.end.x);
    var sy := ParentSize(child.start.y, child.end.y);
    var ax := AndI32(child.start.x, Not(sx - 1));
    var ay := AndI32(child.start.y, Not(sy - 1));
    Rect(Point(ax, ay), Point(ax + sx, ay + sy))
  }

  // ---------------------------------------------------------------------
  // Properties

  /** The unit box around `p` holds `p` and nothing else. */
  lemma BBoxAroundSpec(p: Point, q: Point)
    requires p.x < I32_MAX && p.y < I32_MAX
    ensures InRect(BBoxAround(p), q) <==> q == p
  {
  }

  /** On one axis, for a child interval of width `2^k` starting at a
    * multiple of `2^k`: the parent starts at the child's start rounded down
    * to a multiple of `2^(k+1)`, is `2^(k+1)` wide, and covers the child. */
  lemma ParentAxis(s: i32, e: i32, k: nat)
    requires e - s == Pow2(k) && k <= 29 && s % Pow2(k) == 0
    ensures ParentSize(s, e) == Pow2(k + 1) && I32_MIN <= ParentSize(s, e) - 1 && ParentSize(s, e) <= I32_MAX
    ensures AndI32(s, Not(ParentSize(s, e) - 1)) == (s / Pow2(k + 1)) * Pow2(k + 1)
    ensures (s / Pow2(k + 1)) * Pow2(k + 1) <= s && e <= (s / Pow2(k + 1)) * Pow2(k + 1) + Pow2(k + 1)
  {
    var w: int := Pow2(k);
    var size: int := Pow2(k + 1);
    assert size == 2 * w;
    Pow2Values();
    Pow2Monotone(k + 1, 30);
    AndLowMask(s, k + 1);
    var a := (s / size) * size;
    DivBracket(s, size);
    MultipleDiv(s / size, size);
    AxisCovers(a, s, w);
  }

  /** Below the top of the grid, the arithmetic on such an axis does not
    * overflow. */
  lemma AxisFitsBelowTop(s: i32, e: i32, k: nat)
    requires e - s == Pow2(k) && k <= 29 && s % Pow2(k) == 0 && e + Pow2(k) <= I32_MAX
    ensures AxisFits(s, e)
  {
    ParentAxis(s, e, k);
  }

  /** A multiple `a` of `2w` and a multiple `s` of `w` in `[a, a + 2w)`:
    * the interval `[s, s + w)` lies in `[a, a + 2w)`. */
  lemma AxisCovers(a: int, s: int, w: int)
    requires w > 0 && a % (2 * w) == 0 && s % w == 0 && a <= s < a + 2 * w
    ensures s + w <= a + 2 * w
  {
    var m := a / (2 * w);
    assert a == (2 * w) * m;
    MulAssoc(2, w, m);
    MultipleDiv(2 * m, w);
    assert (2 * m) * w == a;
    MultipleNext(a, w);
    MultiplesOrdered(a + w, s, w);
  }

  /** `parent_bbox` of a square child of side `2^k` aligned to its side:
    * the parent is twice as wide, aligned to its own side, and encloses
    * the child. */
  lemma ParentBBoxSpec(child: Rect, k: nat)
    requires k <= 29
    requires child.end.x - child.start.x == Pow2(k) && child.end.y - child.start.y == Pow2(k)
    requires child.start.x % Pow2(k) == 0 && child.start.y % Pow2(k) == 0
    requires AxisFits(child.start.x, child.end.x) && AxisFits(child.start.y, child.end.y)
    ensures ParentBBox(child).end.x - ParentBBox(child).start.x == 2 * Pow2(k)
    ensures ParentBBox(child).end.y - ParentBBox(child).start.y == 2 * Pow2(k)
    ensures ParentBBox(child).start.x % (2 * Pow2(k)) == 0 && ParentBBox(child).start.y % (2 * Pow2(k)) == 0
    ensures RectEncloses(ParentBBox(child), child)
  {
    ParentAxisSpec(child.start.x, child.end.x, k);
    ParentAxisSpec(child.start.y, child.end.y, k);
  }

  /** One axis of `parent_bbox` for such a child: twice as wide, aligned to
    * its width, and covering the child. */
  lemma ParentAxisSpec(s: i32, e: i32, k: nat)
    requires e - s == Pow2(k) && k <= 29 && s % Pow2(k) == 0 && AxisFits(s, e)
    ensures ParentSize(s, e) == 2 * Pow2(k)
    ensures AndI32(s, Not(ParentSize(s, e) - 1)) % (2 * Pow2(k)) == 0
    ensures AndI32(s, Not(ParentSize(s, e) - 1)) <= s && e <= AndI32(s, Not(ParentSize(s, e) - 1)) + ParentSize(s, e)
  {
    ParentAxis(s, e, k);
    MultipleDiv(s / Pow2(k + 1), Pow2(k + 1));
  }

  /** Without alignment the parent need not cover the child: the box
    * `(3, 3)..(5, 5)` gets the parent `(0, 0)..(4, 4)`, which misses the
    * cell (4, 4). */
  lemma ParentUnaligned()
    ensures AxisFits(3, 5)
    ensures ParentBBox(Rect(Point(3, 3), Point(5, 5))) == Rect(Point(0, 0), Point(4, 4))
    ensures InRect(Rect(Point(3, 3), Point(5, 5)), Point(4, 4))
    ensures !InRect(ParentBBox(Rect(Point(3, 3), Point(5, 5))), Point(4, 4))
  {
    assert Pow2(2) == 4;
    AndLowMask(3, 2);
  }

  // ---------------------------------------------------------------------
  // The program's test cases

  lemma BBoxAroundExample()
    ensures BBoxAround(Point(5, 5)) == Rect(Point(5, 5), Point(6, 6))
  {
  }

  /** Unit boxes, on both sides of zero. */
  lemma ParentUnitExamples()
    ensures AxisFits(5, 6) && AxisFits(7, 8) && AxisFits(-5, -4) && AxisFits(-7, -6)
    ensures ParentBBox(Rect(Point(5, 5), Point(6, 6))) == Rect(Point(4, 4), Point(6, 6))
    ensures ParentBBox(Rect(Point(5, 7), Point(6, 8))) == Rect(Point(4, 6), Point(6, 8))
    ensures ParentBBox(Rect(Point(7, 5), Point(8, 6))) == Rect(Point(6, 4), Point(8, 6))
    ensures ParentBBox(Rect(Point(7, 7), Point(8, 8))) == Rect(Point(6, 6), Point(8, 8))
    ensures ParentBBox(Rect(Point(-5, -5), Point(-4, -4))) == Rect(Point(-6, -6), Point(-4, -4))
    ensures ParentBBox(Rect(Point(-5, -7), Point(-4, -6))) == Rect(Point(-6, -8), Point(-4, -6))
    ensures ParentBBox(Rect(Point(-7, -5), Point(-6, -4))) == Rect(Point(-8, -6), Point(-6, -4))
    ensures ParentBBox(Rect(Point(-7, -7), Point(-6, -6))) == Rect(Point(-8, -8), Point(-6, -6))
  {
    assert Pow2(0) == 1 && Pow2(1) == 2;
    AxisFitsBelowTop(5, 6, 0);
    AxisFitsBelowTop(7, 8, 0);
    AxisFitsBelowTop(-5, -4, 0);
    AxisFitsBelowTop(-7, -6, 0);
  }

  /** Boxes of side 2, on both sides of zero. */
  lemma ParentExamples()
    ensures AxisFits(4, 6) && AxisFits(6, 8) && AxisFits(-6, -4) && AxisFits(-8, -6)
    ensures ParentBBox(Rect(Point(4, 4), Point(6, 6))) == Rect(Point(4, 4), Point(8, 8))
    ensures ParentBBox(Rect(Point(4, 6), Point(6, 8))) == Rect(Point(4, 4), Point(8, 8))
    ensures ParentBBox(Rect(Point(6, 4), Point(8, 6))) == Rect(Point(4, 4), Point(8, 8))
    ensures ParentBBox(Rect(Point(6, 6), Point(8, 8))) == Rect(Point(4, 4), Point(8, 8))
    ensures ParentBBox(Rect(Point(-6, -6), Point(-4, -4))) == Rect(Point(-8, -8), Point(-4, -4))
    ensures ParentBBox(Rect(Point(-6, -8), Point(-4, -6))) == Rect(Point(-8, -8), Point(-4, -4))
    ensures ParentBBox(Rect(Point(-8, -6), Point(-6, -4))) == Rect(Point(-8, -8), Point(-4, -4))
    ensures ParentBBox(Rect(Point(-8, -8), Point(-6, -6))) == Rect(Point(-8, -8), Point(-4, -4))
  {
    assert Pow2(1) == 2 && Pow2(2) == 4;
    AxisFitsBelowTop(4, 6, 1);
    AxisFitsBelowTop(6, 8, 1);
    AxisFitsBelowTop(-6, -4, 1);
    AxisFitsBelowTop(-8, -6, 1);
  }
}
