/** Squares whose side is a power of two (`BinarySquare`): the XOR
  * containment test, the two-bit sub-quadrant code, and the search for the
  * smallest aligned square enclosing two squares.
  *
  * Alongside the operations as the program computes them, `Aligned`,
  * `Contains` and `Encloses` give the plain geometric reading they are
  * proved against.
  */
module Squares {
  import opened Ints
  import opened Geometry
  import opened Quarters

  datatype BinarySquare = BinarySquare(anchor: Point, size: u32)

  datatype CommonError = DifferentGlobalQuarters | NoSquareFound

  /** `2^30`: the largest side a square found by `common` can have. The
    * candidate of side `2^31` never holds, because `holds` compares with
    * `size as i32`, which for `1 << 31` is `i32::MIN` (`TopCandidateMisses`). */
  const MAX_SIDE: nat := 0x4000_0000

  // ---------------------------------------------------------------------
  // Geometric reading

  /** The side is a power of two and the anchor a multiple of it. */
  predicate Aligned(sq: BinarySquare)
  {
    IsPow2(sq.size) &&
    DivisibleByPow2(sq.anchor.x, Log2(sq.size)) && DivisibleByPow2(sq.anchor.y, Log2(sq.size))
  }

  lemma AlignedSpec(sq: BinarySquare)
    requires IsPow2(sq.size)
    ensures Aligned(sq) <==> sq.anchor.x % sq.size == 0 && sq.anchor.y % sq.size == 0
  {
    DivisibleByPow2Spec(sq.anchor.x, Log2(sq.size));
    DivisibleByPow2Spec(sq.anchor.y, Log2(sq.size));
  }

  /** The cells `[anchor, anchor + size)` on both axes. */
  predicate Contains(sq: BinarySquare, p: Point)
  {
    sq.anchor.x <= p.x < sq.anchor.x + sq.size && sq.anchor.y <= p.y < sq.anchor.y + sq.size
  }

  /** Every cell of `inner` is a cell of `outer`. */
  predicate Encloses(outer: BinarySquare, inner: BinarySquare)
  {
    outer.anchor.x <= inner.anchor.x && inner.anchor.x + inner.size <= outer.anchor.x + outer.size &&
    outer.anchor.y <= inner.anchor.y && inner.anchor.y + inner.size <= outer.anchor.y + outer.size
  }

  /** Every cell of the square is a point of the i32 grid. */
  predicate InGrid(sq: BinarySquare)
  {
    sq.anchor.x + sq.size <= I32_MAX + 1 && sq.anchor.y + sq.size <= I32_MAX + 1
  }

  predicate SameSide(a: int, b: int)
  {
    (a < 0) == (b < 0)
  }

  /** On each axis both points lie on the same side of zero. */
  predicate SameSides(p: Point, r: Point)
  {
    SameSide(p.x, r.x) && SameSide(p.y, r.y)
  }

  function Max(a: int, b: int): int
  {
    if a < b then b else a
  }

  function Min(a: int, b: int): int
  {
    if a < b then a else b
  }

  /** The sub-square of `sq` with quadrant code `code`: bit `0b10` selects
    * the upper half in x, bit `0b01` the upper half in y. */
  function Quadrant(sq: BinarySquare, code: nat): BinarySquare
    requires code < 4 && sq.anchor.x + sq.size / 2 <= I32_MAX && sq.anchor.y + sq.size / 2 <= I32_MAX
  {
    var half := sq.size / 2;
    BinarySquare(Point(sq.anchor.x + (if code / 2 == 1 then half else 0),
                       sq.anchor.y + (if code % 2 == 1 then half else 0)), half)
  }

  // ---------------------------------------------------------------------
  // Operations of the program

  /** `BinarySquare::wrapping`: the unit square of a point. */
  function Wrapping(p: Point): BinarySquare
  {
    BinarySquare(p, 1)
  }

  /** `holds(point)`: on every axis `anchor ^ coord < size as i32`, compared
    * as signed 32-bit integers. */
  predicate HoldsPoint(sq: BinarySquare, p: Point)
  {
    var left := AsI32(sq.size);
    Xor(sq.anchor.x, p.x) < left && Xor(sq.anchor.y, p.y) < left
  }

  /** `holds(square)`. */
  predicate HoldsSquare(sq: BinarySquare, obj: BinarySquare)
  {
    obj.size <= sq.size && HoldsPoint(sq, obj.anchor)
  }

  /** `(u32::MAX << bits) as i32`. */
  function Mask(bits: nat): i32
    requires bits < 32
  {
    AsI32(ShlU32(U32_MAX, bits))
  }

  /** The square tried by `search_area` for a given number of bits. */
  function Candidate(start: Point, bits: nat): BinarySquare
    requires bits < 32
  {
    BinarySquare(Point(AndI32(start.x, Mask(bits)), AndI32(start.y, Mask(bits))), ShlU32(1, bits))
  }

  /** `search_area`: the first candidate from `bits` upwards that holds
    * `end`; `None` is the panic after the last width. */
  function SearchFrom(start: Point, end: Point, bits: nat): Option<BinarySquare>
    decreases 32 - bits
  {
    if bits < 32 then
      var square := Candidate(start, bits);
      if HoldsPoint(square, end) then Some(square) else SearchFrom(start, end, bits + 1)
    else
      None
  }

  /** `search_area` as the loop the program runs. */
  method SearchArea(start: Point, end: Point, bits: u32) returns (r: Option<BinarySquare>)
    ensures r == SearchFrom(start, end, bits)
  {
    var b: nat := bits;
    while b < 32
      invariant SearchFrom(start, end, b) == SearchFrom(start, end, bits)
      decreases 32 - b
    {
      var square := Candidate(start, b);
      if HoldsPoint(square, end) {
        return Some(square);
      }
      b := b + 1;
    }
    return None;
  }

  /** `BinarySquare::common`. */
  function Common(rhs: BinarySquare, lhs: BinarySquare): Result<BinarySquare, CommonError>
  {
    if GlobalQuarter(rhs.anchor) != GlobalQuarter(lhs.anchor) then
      Err(DifferentGlobalQuarters)
    else
      var start := Point(Min(rhs.anchor.x, lhs.anchor.x), Min(rhs.anchor.y, lhs.anchor.y));
      var end := Point(Max(rhs.anchor.x, lhs.anchor.x), Max(rhs.anchor.y, lhs.anchor.y));
      var bits := TrailingZeros(Max(rhs.size, lhs.size)) + 1;
      match SearchFrom(start, end, bits)
      case None => Err(NoSquareFound)
      case Some(square) => Ok(square)
  }

  /** `quarter(point)`: the two-bit code built from the `size >> 1` bit of
    * each coordinate, as an index into a node's children. */
  function SquareQuarter(sq: BinarySquare, p: Point): (code: nat)
    ensures code < 4
  {
    var mask := AsI32(sq.size / 2);
    (if AndI32(p.x, mask) == mask then 2 else 0) + (if AndI32(p.y, mask) == mask then 1 else 0)
  }

  /** `anchor + size` is an i32 on both axes, so that the range of the
    * square can be formed. */
  predicate RangeFits(sq: BinarySquare)
  {
    sq.size <= I32_MAX && sq.anchor.x + sq.size <= I32_MAX && sq.anchor.y + sq.size <= I32_MAX
  }

  /** `Range::from(square)`: `anchor..anchor + size` on both axes. */
  function ToRange(sq: BinarySquare): BBox
    requires RangeFits(sq)
  {
    RangeBox(sq.anchor, Point(sq.anchor.x + sq.size, sq.anchor.y + sq.size))
  }

  /** `bbox.overlaps(square)`: the full range overlaps every square; any
    * other box is compared with the square's range, which must then fit
    * in i32. */
  predicate Overlaps(bbox: BBox, sq: BinarySquare)
    requires bbox == FullBox || RangeFits(sq)
  {
    bbox == FullBox || BoxesMeet(bbox, ToRange(sq))
  }

  // ---------------------------------------------------------------------
  // Arithmetic facts about aligned squares

  /** Within an aligned square a coordinate keeps the anchor's sign. */
  lemma AlignedSides(sq: BinarySquare, p: Point)
    requires Aligned(sq) && Contains(sq, p)
    ensures SameSides(sq.anchor, p)
  {
    AlignedSpec(sq);
    AlignedAxisSide(sq.anchor.x, p.x, sq.size);
    AlignedAxisSide(sq.anchor.y, p.y, sq.size);
  }

  lemma AlignedAxisSide(a: int, o: int, s: int)
    requires s > 0 && a % s == 0 && a <= o < a + s
    ensures SameSide(a, o)
  {
    if a < 0 {
      NegativeMultiple(a, s);
    }
  }

  /** On one axis the XOR test is the interval test, given alignment and
    * equal signs. */
  lemma AxisHolds(a: int, o: int, k: nat)
    requires a % Pow2(k) == 0 && SameSide(a, o)
    ensures Xor(a, o) < Pow2(k) <==> a <= o < a + Pow2(k)
  {
    XorNegative(a, o);
    XorBelowPow2(a, o, k);
    SameQuotient(a, o, Pow2(k));
  }

  /** `holds(point)` is exact for an aligned square of at most `2^30` when
    * the point lies on the anchor's side of zero on each axis. */
  lemma HoldsExact(sq: BinarySquare, p: Point)
    requires Aligned(sq) && sq.size <= MAX_SIDE && SameSides(sq.anchor, p)
    ensures HoldsPoint(sq, p) <==> Contains(sq, p)
  {
    Pow2Values();
    AlignedSpec(sq);
    var k := Log2(sq.size);
    AxisHolds(sq.anchor.x, p.x, k);
    AxisHolds(sq.anchor.y, p.y, k);
  }

  /** Without the sign condition the signed comparison accepts points far
    * outside: the square at (2, 2) of side 2 holds (-1, -1). */
  lemma HoldsAcrossZero()
    ensures HoldsPoint(BinarySquare(Point(2, 2), 2), Point(-1, -1))
    ensures !Contains(BinarySquare(Point(2, 2), 2), Point(-1, -1))
  {
    assert Xor(2, -1) == -3;
  }

  /** `holds(square)` is enclosure for aligned squares on one side of zero. */
  lemma HoldsSquareExact(sq: BinarySquare, obj: BinarySquare)
    requires Aligned(sq) && Aligned(obj) && sq.size <= MAX_SIDE && SameSides(sq.anchor, obj.anchor)
    ensures HoldsSquare(sq, obj) <==> Encloses(sq, obj)
  {
    HoldsExact(sq, obj.anchor);
    if HoldsSquare(sq, obj) {
      NestedAligned(obj, sq, obj.anchor);
    }
  }

  /** Two aligned squares sharing a cell are nested, the smaller inside the
    * larger. */
  lemma NestedAligned(small: BinarySquare, big: BinarySquare, p: Point)
    requires Aligned(small) && Aligned(big) && small.size <= big.size
    requires Contains(small, p) && Contains(big, p)
    ensures Encloses(big, small)
  {
    AlignedSpec(small);
    AlignedSpec(big);
    var ks, kb := Log2(small.size), Log2(big.size);
    Pow2Strict(ks, kb);
    MultipleNext(big.anchor.x, big.size);
    MultipleNext(big.anchor.y, big.size);
    MultiplePow2(big.anchor.x, ks, kb);
    MultiplePow2(big.anchor.y, ks, kb);
    MultiplePow2(big.anchor.x + big.size, ks, kb);
    MultiplePow2(big.anchor.y + big.size, ks, kb);
    AxisNested(small.anchor.x, small.size, big.anchor.x, big.size, p.x);
    AxisNested(small.anchor.y, small.size, big.anchor.y, big.size, p.y);
  }

  /** On one axis: an `s`-aligned interval `[a, a + s)` meeting an interval
    * `[c, c + t)` whose ends are multiples of `s` lies inside it. */
  lemma AxisNested(a: int, s: int, c: int, t: int, o: int)
    requires s > 0 && a % s == 0 && c % s == 0 && (c + t) % s == 0
    requires a <= o < a + s && c <= o < c + t
    ensures c <= a && a + s <= c + t
  {
    MultiplesOrdered(a, c, s);
    MultipleNext(a, s);
    MultiplesOrdered(c + t, a + s, s);
  }

  /** The candidate of width `bits` is the aligned square of side `2^bits`
    * containing `start`. */
  lemma CandidateSpec(start: Point, bits: nat)
    requires bits <= 30
    ensures Candidate(start, bits).size == Pow2(bits)
    ensures Aligned(Candidate(start, bits)) && Contains(Candidate(start, bits), start)
  {
    ShlOne(bits);
    Pow2IsPow2(bits);
    AxisCandidate(start.x, bits);
    AxisCandidate(start.y, bits);
    AlignedSpec(Candidate(start, bits));
  }

  /** `x & mask` rounds `x` down to a multiple of `2^bits`. */
  lemma AxisCandidate(x: i32, bits: nat)
    requires bits <= 30
    ensures AndI32(x, Mask(bits)) % Pow2(bits) == 0
    ensures AndI32(x, Mask(bits)) <= x < AndI32(x, Mask(bits)) + Pow2(bits)
  {
    var p: int := Pow2(bits);
    LowMaskValue(bits);
    AndLowMask(x, bits);
    assert AndI32(x, Mask(bits)) == (x / p) * p;
    MultipleDiv(x / p, p);
    DivBracket(x, p);
  }

  /** An aligned square of side `2^k` is the candidate of width `k` of any
    * of its cells. */
  lemma AlignedUnique(sq: BinarySquare, p: Point, k: nat)
    requires k <= 30 && Aligned(sq) && sq.size == Pow2(k) && Contains(sq, p)
    ensures sq == Candidate(p, k)
  {
    var s: int := sq.size;
    AlignedSpec(sq);
    CandidateSpec(p, k);
    AlignedSpec(Candidate(p, k));
    var c := Candidate(p, k);
    MultiplesOrdered(c.anchor.x, sq.anchor.x, s);
    MultiplesOrdered(sq.anchor.x, c.anchor.x, s);
    MultiplesOrdered(c.anchor.y, sq.anchor.y, s);
    MultiplesOrdered(sq.anchor.y, c.anchor.y, s);
  }

  // ---------------------------------------------------------------------
  // The search

  /** A found square is the first candidate from `bits` upwards that holds
    * `end`. */
  lemma SearchFound(start: Point, end: Point, bits: nat)
    requires SearchFrom(start, end, bits).Some?
    ensures IsPow2(SearchFrom(start, end, bits).value.size)
    ensures var k := Log2(SearchFrom(start, end, bits).value.size);
      bits <= k < 32 && SearchFrom(start, end, bits).value == Candidate(start, k) &&
      HoldsPoint(Candidate(start, k), end) &&
      forall i :: bits <= i < k ==> !HoldsPoint(Candidate(start, i), end)
  {
    var k := SearchIndex(start, end, bits);
    ShlOne(k);
    Pow2IsPow2(k);
  }

  /** The number of bits at which the search stops. */
  lemma {:induction false} SearchIndex(start: Point, end: Point, bits: nat) returns (k: nat)
    requires SearchFrom(start, end, bits).Some?
    ensures bits <= k < 32 && SearchFrom(start, end, bits) == Some(Candidate(start, k))
    ensures HoldsPoint(Candidate(start, k), end)
    ensures forall i :: bits <= i < k ==> !HoldsPoint(Candidate(start, i), end)
    decreases 32 - bits
  {
    if HoldsPoint(Candidate(start, bits), end) {
      k := bits;
    } else {
      k := SearchIndex(start, end, bits + 1);
    }
  }

  /** The search fails (the program panics) exactly when no candidate from
    * `bits` to 31 holds `end`. */
  lemma {:induction false} SearchNone(start: Point, end: Point, bits: nat)
    ensures SearchFrom(start, end, bits).None? <==>
      forall i :: bits <= i < 32 ==> !HoldsPoint(Candidate(start, i), end)
    decreases 32 - bits
  {
    if bits < 32 && !HoldsPoint(Candidate(start, bits), end) {
      SearchNone(start, end, bits + 1);
    }
  }

  /** The candidate of width 31 never holds anything: its side `2^31` read
    * as i32 is `i32::MIN`, and no XOR of two i32 values is below it. */
  lemma TopCandidateMisses(start: Point, end: Point)
    ensures !HoldsPoint(Candidate(start, 31), end)
  {
    Pow2Values();
    ShlOne(31);
    XorRange(Candidate(start, 31).anchor.x, end.x, 31);
  }

  /** So the search never returns a square of side `2^31`: once it reaches
    * width 31 it panics whatever the points. */
  lemma SearchTopNone(start: Point, end: Point)
    ensures SearchFrom(start, end, 31) == None
  {
    TopCandidateMisses(start, end);
  }

  // ---------------------------------------------------------------------
  // common

  /** Anchors in different global quarters are refused. */
  lemma CommonRefuses(rhs: BinarySquare, lhs: BinarySquare)
    ensures Common(rhs, lhs) == Err(DifferentGlobalQuarters)
        <==> GlobalQuarter(rhs.anchor) != GlobalQuarter(lhs.anchor)
  {
  }

  /** `common` panics exactly when the anchors share a global quarter and
    * the search from one bit above the larger side finds nothing. */
  lemma CommonPanics(rhs: BinarySquare, lhs: BinarySquare)
    ensures Common(rhs, lhs) == Err(NoSquareFound) <==>
      GlobalQuarter(rhs.anchor) == GlobalQuarter(lhs.anchor) &&
      SearchFrom(Point(Min(rhs.anchor.x, lhs.anchor.x), Min(rhs.anchor.y, lhs.anchor.y)),
        Point(Max(rhs.anchor.x, lhs.anchor.x), Max(rhs.anchor.y, lhs.anchor.y)),
        TrailingZeros(Max(rhs.size, lhs.size)) + 1).None?
  {
  }

  /** A result of `common` is the first candidate, from one bit above the
    * larger side, of the componentwise minimum that holds the
    * componentwise maximum of the anchors; its side is at least twice the
    * larger input side. */
  lemma CommonShape(rhs: BinarySquare, lhs: BinarySquare)
    requires IsPow2(rhs.size) && IsPow2(lhs.size)
    requires Common(rhs, lhs).Ok?
    ensures IsPow2(Common(rhs, lhs).value.size)
    ensures TrailingZeros(Max(rhs.size, lhs.size)) + 1 <= Log2(Common(rhs, lhs).value.size) < 32
    ensures Common(rhs, lhs).value ==
      Candidate(Point(Min(rhs.anchor.x, lhs.anchor.x), Min(rhs.anchor.y, lhs.anchor.y)), Log2(Common(rhs, lhs).value.size))
    ensures HoldsPoint(Common(rhs, lhs).value, Point(Max(rhs.anchor.x, lhs.anchor.x), Max(rhs.anchor.y, lhs.anchor.y)))
    ensures 2 * Max(rhs.size, lhs.size) <= Common(rhs, lhs).value.size
  {
    var start := Point(Min(rhs.anchor.x, lhs.anchor.x), Min(rhs.anchor.y, lhs.anchor.y));
    var end := Point(Max(rhs.anchor.x, lhs.anchor.x), Max(rhs.anchor.y, lhs.anchor.y));
    var m := Max(rhs.size, lhs.size);
    var km := Log2(m);
    var bits := TrailingZeros(m) + 1;
    assert Common(rhs, lhs) == Ok(SearchFrom(start, end, bits).value);
    SearchFound(start, end, bits);
    var c := Common(rhs, lhs).value;
    var k := Log2(c.size);
    if km < 32 {
      TrailingZerosPow2(km);
      Pow2Monotone(km + 1, k);
    } else {
      Pow2Values();
      Pow2Monotone(32, km);
    }
  }


  /** If an aligned square `d` of side `2^kd`, `bits <= kd <= 30`, contains
    * both `start` and `end`, the search from `bits` finds an aligned square
    * containing both, of side between `2^bits` and `d`'s. */
  lemma SearchWithin(start: Point, end: Point, bits: nat, d: BinarySquare)
    requires Aligned(d) && d.size <= MAX_SIDE && Pow2(bits) <= d.size
    requires Contains(d, start) && Contains(d, end)
    ensures SearchFrom(start, end, bits).Some?
    ensures var c := SearchFrom(start, end, bits).value;
      Aligned(c) && Contains(c, start) && Contains(c, end) && Pow2(bits) <= c.size <= d.size
  {
    var kd := Log2(d.size);
    Pow2Values();
    Pow2Strict(kd, 30);
    Pow2Strict(bits, kd);
    AlignedSides(d, start);
    AlignedSides(d, end);
    AlignedUnique(d, start, kd);
    HoldsExact(d, end);
    assert HoldsPoint(Candidate(start, kd), end);
    SearchNone(start, end, bits);
    SearchFound(start, end, bits);
    var c := SearchFrom(start, end, bits).value;
    var k := Log2(c.size);
    assert k <= kd;
    Pow2Monotone(k, kd);
    Pow2Monotone(bits, k);
    CandidateSpec(start, k);
    AlignedSides(c, start);
    HoldsExact(c, end);
  }

  /** The heart of `common`: for aligned squares of which some aligned `d`
    * of at most `2^30` and at least twice the larger side encloses both,
    * `common` succeeds with an aligned square enclosing both, at least twice
    * the larger side and no larger than `d`. */
  lemma CommonBelow(rhs: BinarySquare, lhs: BinarySquare, d: BinarySquare)
    requires Aligned(rhs) && Aligned(lhs) && Aligned(d) && d.size <= MAX_SIDE
    requires Encloses(d, rhs) && Encloses(d, lhs) && 2 * Max(rhs.size, lhs.size) <= d.size
    ensures Common(rhs, lhs).Ok?
    ensures var c := Common(rhs, lhs).value;
      Aligned(c) && Encloses(c, rhs) && Encloses(c, lhs) && c.size <= d.size &&
      2 * Max(rhs.size, lhs.size) <= c.size
  {
    var start := Point(Min(rhs.anchor.x, lhs.anchor.x), Min(rhs.anchor.y, lhs.anchor.y));
    var end := Point(Max(rhs.anchor.x, lhs.anchor.x), Max(rhs.anchor.y, lhs.anchor.y));
    SameRegionQuarter(rhs, lhs, d);
    var bits := TrailingZeros(Max(rhs.size, lhs.size)) + 1;
    CommonBits(rhs, lhs, d);
    CornersInside(rhs, lhs, d);
    SearchWithin(start, end, bits, d);
    var c := SearchFrom(start, end, bits).value;
    CommonIsSearch(rhs, lhs);
    AnchorsBetween(rhs, lhs, c);
    EnclosesCorners(rhs, lhs, c);
  }

  /** A square containing the componentwise minimum and maximum of two
    * anchors contains both anchors. */
  lemma AnchorsBetween(rhs: BinarySquare, lhs: BinarySquare, c: BinarySquare)
    requires Contains(c, Point(Min(rhs.anchor.x, lhs.anchor.x), Min(rhs.anchor.y, lhs.anchor.y)))
    requires Contains(c, Point(Max(rhs.anchor.x, lhs.anchor.x), Max(rhs.anchor.y, lhs.anchor.y)))
    ensures Contains(c, rhs.anchor) && Contains(c, lhs.anchor)
  {
  }

  /** For anchors in one global quarter, `common` is the search from one bit
    * above the larger side. */
  lemma CommonIsSearch(rhs: BinarySquare, lhs: BinarySquare)
    requires GlobalQuarter(rhs.anchor) == GlobalQuarter(lhs.anchor)
    requires SearchFrom(Point(Min(rhs.anchor.x, lhs.anchor.x), Min(rhs.anchor.y, lhs.anchor.y)),
      Point(Max(rhs.anchor.x, lhs.anchor.x), Max(rhs.anchor.y, lhs.anchor.y)),
      TrailingZeros(Max(rhs.size, lhs.size)) + 1).Some?
    ensures Common(rhs, lhs) == Ok(SearchFrom(Point(Min(rhs.anchor.x, lhs.anchor.x), Min(rhs.anchor.y, lhs.anchor.y)),
      Point(Max(rhs.anchor.x, lhs.anchor.x), Max(rhs.anchor.y, lhs.anchor.y)),
      TrailingZeros(Max(rhs.size, lhs.size)) + 1).value)
  {
  }

  /** Two squares inside one aligned square lie in the same global quarter. */
  lemma SameRegionQuarter(rhs: BinarySquare, lhs: BinarySquare, d: BinarySquare)
    requires Aligned(d) && rhs.size >= 1 && lhs.size >= 1 && Encloses(d, rhs) && Encloses(d, lhs)
    ensures GlobalQuarter(rhs.anchor) == GlobalQuarter(lhs.anchor)
  {
    assert Contains(d, rhs.anchor) && Contains(d, lhs.anchor);
    AlignedSides(d, rhs.anchor);
    AlignedSides(d, lhs.anchor);
  }

  /** The componentwise minimum and maximum of the anchors of two squares
    * inside `d` are cells of `d`. */
  lemma CornersInside(rhs: BinarySquare, lhs: BinarySquare, d: BinarySquare)
    requires rhs.size >= 1 && lhs.size >= 1 && Encloses(d, rhs) && Encloses(d, lhs)
    ensures Contains(d, Point(Min(rhs.anchor.x, lhs.anchor.x), Min(rhs.anchor.y, lhs.anchor.y)))
    ensures Contains(d, Point(Max(rhs.anchor.x, lhs.anchor.x), Max(rhs.anchor.y, lhs.anchor.y)))
  {
  }

  /** The search of `common` starts at the side twice the larger input's. */
  lemma CommonBits(rhs: BinarySquare, lhs: BinarySquare, d: BinarySquare)
    requires Aligned(rhs) && Aligned(lhs) && d.size <= MAX_SIDE && 2 * Max(rhs.size, lhs.size) <= d.size
    ensures Pow2(TrailingZeros(Max(rhs.size, lhs.size)) + 1) == 2 * Max(rhs.size, lhs.size)
  {
    var m := Max(rhs.size, lhs.size);
    var km := Log2(m);
    Pow2Values();
    assert Pow2(km + 1) == 2 * m;
    Pow2Strict(km + 1, 30);
    TrailingZerosPow2(km);
  }

  /** An aligned square at least twice the larger side that contains both
    * anchors encloses both squares. */
  lemma EnclosesCorners(rhs: BinarySquare, lhs: BinarySquare, c: BinarySquare)
    requires Aligned(rhs) && Aligned(lhs) && Aligned(c) && 2 * Max(rhs.size, lhs.size) <= c.size
    requires Contains(c, rhs.anchor) && Contains(c, lhs.anchor)
    ensures Encloses(c, rhs) && Encloses(c, lhs)
  {
    NestedAligned(rhs, c, rhs.anchor);
    NestedAligned(lhs, c, lhs.anchor);
  }

  /** `common` of two aligned squares lying in an aligned region `q` of at
    * most `2^30` and at least twice the larger side is an aligned square
    * enclosing both, inside `q`, at least twice the larger side. */
  lemma CommonEncloses(rhs: BinarySquare, lhs: BinarySquare, q: BinarySquare)
    requires Aligned(rhs) && Aligned(lhs) && Aligned(q) && q.size <= MAX_SIDE
    requires Encloses(q, rhs) && Encloses(q, lhs) && 2 * Max(rhs.size, lhs.size) <= q.size
    ensures Common(rhs, lhs).Ok?
    ensures var c := Common(rhs, lhs).value;
      Aligned(c) && Encloses(c, rhs) && Encloses(c, lhs) && Encloses(q, c) &&
      2 * Max(rhs.size, lhs.size) <= c.size
  {
    CommonBelow(rhs, lhs, q);
    var c := Common(rhs, lhs).value;
    assert Contains(c, rhs.anchor) && Contains(q, rhs.anchor);
    NestedAligned(c, q, rhs.anchor);
  }

  /** No aligned square of at least twice the larger side that encloses
    * both inputs is smaller than the result of `common`. */
  lemma CommonSmallest(rhs: BinarySquare, lhs: BinarySquare, d: BinarySquare)
    requires Aligned(rhs) && Aligned(lhs) && Aligned(d) && d.size <= MAX_SIDE
    requires Encloses(d, rhs) && Encloses(d, lhs) && 2 * Max(rhs.size, lhs.size) <= d.size
    ensures Common(rhs, lhs).Ok? && Common(rhs, lhs).value.size <= d.size
  {
    CommonBelow(rhs, lhs, d);
  }

  // ---------------------------------------------------------------------
  // The search with an unsigned comparison

  /** `holds(point)` as evidently intended, comparing `(anchor ^ coord) as
    * u32 < size`. The candidate sides are at most `2^31`, so a negative
    * XOR, whose `u32` reading is at least `2^31`, never passes. */
  predicate HoldsPointUnsigned(sq: BinarySquare, p: Point)
  {
    0 <= Xor(sq.anchor.x, p.x) < sq.size && 0 <= Xor(sq.anchor.y, p.y) < sq.size
  }

  /** `search_area` over the unsigned test. */
  function SearchFromUnsigned(start: Point, end: Point, bits: nat): Option<BinarySquare>
    decreases 32 - bits
  {
    if bits < 32 then
      var square := Candidate(start, bits);
      if HoldsPointUnsigned(square, end) then Some(square) else SearchFromUnsigned(start, end, bits + 1)
    else
      None
  }

  /** On one axis the candidate of width `k` is the interval of `2^k`
    * around `x`, and the unsigned test is membership in it. */
  lemma UnsignedAxis(x: i32, o: int, k: nat)
    requires k < 32
    ensures var a := AndI32(x, Mask(k));
      a % Pow2(k) == 0 && a <= x < a + Pow2(k) &&
      (0 <= Xor(a, o) < Pow2(k) <==> a <= o < a + Pow2(k))
  {
    var p: int := Pow2(k);
    LowMaskValue(k);
    AndLowMask(x, k);
    var a := (x / p) * p;
    MultipleDiv(x / p, p);
    DivBracket(x, p);
    XorBelowPow2(a, o, k);
    SameQuotient(a, o, p);
  }

  /** Below width 31 the signed and the unsigned test agree on points on
    * the same sides of zero as `start`. */
  lemma HoldsAgree(start: Point, end: Point, k: nat)
    requires k <= 30 && SameSides(start, end)
    ensures HoldsPoint(Candidate(start, k), end) <==> HoldsPointUnsigned(Candidate(start, k), end)
  {
    var c := Candidate(start, k);
    CandidateSpec(start, k);
    Pow2Monotone(k, 30);
    Pow2Values();
    AxisCandidate(start.x, k);
    AxisCandidate(start.y, k);
    AxisSign(c.anchor.x, start.x, Pow2(k));
    AxisSign(c.anchor.y, start.y, Pow2(k));
    XorNegative(c.anchor.x, end.x);
    XorNegative(c.anchor.y, end.y);
  }

  /** A multiple `a` of `d` with `x` in `[a, a + d)` has the sign of `x`. */
  lemma AxisSign(a: int, x: int, d: int)
    requires d > 0 && a % d == 0 && a <= x < a + d
    ensures SameSide(a, x)
  {
    if a < 0 {
      NegativeMultiple(a, d);
    }
  }

  /** The unsigned candidate of width 31 holds every point on the same
    * sides of zero as `start`: it is that global quarter. */
  lemma TopCandidateHolds(start: Point, end: Point)
    requires SameSides(start, end)
    ensures HoldsPointUnsigned(Candidate(start, 31), end)
  {
    Pow2Values();
    ShlOne(31);
    TopAxis(start.x, end.x);
    TopAxis(start.y, end.y);
  }

  lemma TopAxis(x: i32, o: i32)
    requires SameSide(x, o)
    ensures 0 <= Xor(AndI32(x, Mask(31)), o) < Pow2(31)
  {
    var p: int := Pow2(31);
    Pow2Values();
    LowMaskValue(31);
    AndLowMask(x, 31);
    if x >= 0 {
      DivUnique(x, p, 0);
      assert AndI32(x, Mask(31)) == 0;
      XorZeroLeft(o);
    } else {
      DivUnique(x, p, -1);
      assert AndI32(x, Mask(31)) == -p;
      DivUnique(-p, p, -1);
      DivUnique(o, p, -1);
      XorBelowPow2(-p, o, 31);
    }
  }


  /** The number of bits at which the unsigned search stops, given that
    * the candidate of width `top` holds. */
  lemma {:induction false} SearchUnsignedIndex(start: Point, end: Point, bits: nat, top: nat) returns (k: nat)
    requires bits <= top < 32 && HoldsPointUnsigned(Candidate(start, top), end)
    ensures bits <= k <= top && SearchFromUnsigned(start, end, bits) == Some(Candidate(start, k))
    ensures HoldsPointUnsigned(Candidate(start, k), end)
    decreases top - bits
  {
    if HoldsPointUnsigned(Candidate(start, bits), end) {
      k := bits;
    } else {
      k := SearchUnsignedIndex(start, end, bits + 1, top);
    }
  }


  /** The unsigned search never panics on points on the same sides of
    * zero: it finds an aligned square of side at least `2^bits` holding
    * both points. */
  lemma SearchUnsignedSucceeds(start: Point, end: Point, bits: nat)
    requires bits <= 31 && SameSides(start, end)
    ensures SearchFromUnsigned(start, end, bits).Some?
    ensures var c := SearchFromUnsigned(start, end, bits).value;
      Aligned(c) && Pow2(bits) <= c.size && Contains(c, start) && Contains(c, end)
  {
    TopCandidateHolds(start, end);
    var k := SearchUnsignedIndex(start, end, bits, 31);
    var c := Candidate(start, k);
    ShlOne(k);
    Pow2IsPow2(k);
    Pow2Monotone(bits, k);
    UnsignedAxis(start.x, end.x, k);
    UnsignedAxis(start.y, end.y, k);
    AlignedSpec(c);
  }

  /** Wherever the signed search finds a square the unsigned one finds the
    * same: the two differ only where the program panics. */
  lemma {:induction false} SearchUnsignedAgrees(start: Point, end: Point, bits: nat)
    requires bits <= 31 && SameSides(start, end)
    ensures SearchFrom(start, end, bits).Some? ==> SearchFromUnsigned(start, end, bits) == SearchFrom(start, end, bits)
    decreases 32 - bits
  {
    if bits == 31 {
      SearchTopNone(start, end);
    } else {
      HoldsAgree(start, end, bits);
      if !HoldsPoint(Candidate(start, bits), end) {
        SearchUnsignedAgrees(start, end, bits + 1);
      }
    }
  }

  // ---------------------------------------------------------------------
  // Quadrant code

  lemma QuadrantSpec(sq: BinarySquare, code: nat)
    requires Aligned(sq) && 2 <= sq.size <= MAX_SIDE && code < 4 && InGrid(sq)
    ensures Aligned(Quadrant(sq, code)) && 2 * Quadrant(sq, code).size == sq.size
    ensures Encloses(sq, Quadrant(sq, code))
  {
    var qd := Quadrant(sq, code);
    AlignedSpec(sq);
    HalfAligned(sq.anchor.x, sq.size, code / 2 == 1);
    HalfAligned(sq.anchor.y, sq.size, code % 2 == 1);
    AlignedSpec(qd);
  }

  /** Half of a power of two at least 2 is a power of two, and both halves
    * of an interval aligned to the whole are aligned to the half. */
  lemma HalfAligned(a: int, size: nat, upper: bool)
    requires IsPow2(size) && size >= 2 && a % size == 0
    ensures IsPow2(size / 2) && 2 * (size / 2) == size
    ensures (a + (if upper then size / 2 else 0)) % (size / 2) == 0
  {
    var k := Log2(size);
    assert k >= 1;
    assert size / 2 == Pow2(k - 1);
    Pow2IsPow2(k - 1);
    HalfAxis(a, k);
  }

  /** Both halves of a `2^k`-aligned interval are `2^(k-1)`-aligned. */
  lemma HalfAxis(a: int, k: nat)
    requires k >= 1 && a % Pow2(k) == 0
    ensures a % Pow2(k - 1) == 0 && (a + Pow2(k - 1)) % Pow2(k - 1) == 0
  {
    MultiplePow2(a, k - 1, k);
    MultipleNext(a, Pow2(k - 1));
  }

  /** On one axis, bit `j` of a coordinate in an aligned interval of
    * `2^(j+1)` says whether it lies in the upper half. */
  lemma AxisUpperHalf(a: int, x: int, j: nat)
    requires a % Pow2(j + 1) == 0 && a <= x < a + Pow2(j + 1)
    ensures And(x, Pow2(j)) == Pow2(j) <==> a + Pow2(j) <= x
  {
    AndBit(x, j);
    UpperHalfQuotient(a, x, Pow2(j));
  }

  lemma UpperHalfQuotient(a: int, x: int, h: int)
    requires h > 0 && a % (2 * h) == 0 && a <= x < a + 2 * h
    ensures (x / h) % 2 == 1 <==> a + h <= x
  {
    var m := a / (2 * h);
    DivBracket(a, 2 * h);
    assert a == m * (2 * h);
    MulAssoc(m, 2, h);
    assert a == h * (2 * m);
    if a + h <= x {
      assert h * (2 * m + 1) == h * (2 * m) + h;
      DivUnique(x, h, 2 * m + 1);
    } else {
      DivUnique(x, h, 2 * m);
    }
  }

  /** The code of a cell of an aligned square names the quadrant holding it. */
  lemma QuarterCodeSpec(sq: BinarySquare, p: Point, code: nat)
    requires Aligned(sq) && 2 <= sq.size <= MAX_SIDE && InGrid(sq) && Contains(sq, p) && code < 4
    ensures SquareQuarter(sq, p) == code <==> Contains(Quadrant(sq, code), p)
  {
    SquareQuarterHalves(sq, p);
  }

  /** Each bit of the code says whether the cell lies in the upper half of
    * its axis. */
  lemma SquareQuarterHalves(sq: BinarySquare, p: Point)
    requires Aligned(sq) && 2 <= sq.size <= MAX_SIDE && Contains(sq, p)
    ensures SquareQuarter(sq, p) ==
      (if sq.anchor.x + sq.size / 2 <= p.x then 2 else 0) + (if sq.anchor.y + sq.size / 2 <= p.y then 1 else 0)
  {
    Pow2Values();
    AlignedSpec(sq);
    var k := Log2(sq.size);
    var h := Pow2(k - 1);
    assert sq.size == 2 * h;
    assert AsI32(sq.size / 2) == h;
    AxisUpperHalf(sq.anchor.x, p.x, k - 1);
    AxisUpperHalf(sq.anchor.y, p.y, k - 1);
  }

  /** The enum value the program produces from a code: its `transmute`
    * reads the code as a discriminant, in the enum's declaration order. */
  function QuarterName(code: nat): Quarter
    requires code < 4
  {
    [NorthEast, NorthWest, SouthEast, SouthWest][code]
  }

  /** The naming the program's quadrant tests expect: upper x and upper y
    * is north-east, so code 3 is `NorthEast` and code 0 `SouthWest`. */
  function IntendedQuarter(code: nat): Quarter
    requires code < 4
  {
    [SouthWest, NorthWest, SouthEast, NorthEast][code]
  }

  /** The centre of a square: where its upper halves begin. */
  function Center(sq: BinarySquare): Point
    requires InGrid(sq)
  {
    Point(sq.anchor.x + sq.size / 2, sq.anchor.y + sq.size / 2)
  }

  /** As written, the cell (3, 3) of the square at the origin of side 4 is
    * named `SouthWest`, where the test expects `NorthEast`. */
  lemma QuarterNamingAsWritten()
    ensures SquareQuarter(BinarySquare(Origin, 4), Point(3, 3)) == 3
    ensures QuarterName(SquareQuarter(BinarySquare(Origin, 4), Point(3, 3))) == SouthWest
  {
    assert AndI32(3, 2) == 2;
  }

  /** With the intended naming, the code of a cell names its quarter around
    * the square's centre. */
  lemma IntendedQuarterSpec(sq: BinarySquare, p: Point)
    requires Aligned(sq) && 2 <= sq.size <= MAX_SIDE && InGrid(sq) && Contains(sq, p)
    ensures IntendedQuarter(SquareQuarter(sq, p)) == QuarterOf(Center(sq), p)
  {
    QuarterCodeSpec(sq, p, SquareQuarter(sq, p));
  }

  /** Every expectation of the program's quadrant tests holds under the
    * intended naming. */
  lemma IntendedQuarterExamples()
    ensures IntendedQuarter(SquareQuarter(BinarySquare(Point(0, 0), 4), Point(3, 3))) == NorthEast
    ensures IntendedQuarter(SquareQuarter(BinarySquare(Point(0, 0), 4), Point(3, 1))) == SouthEast
    ensures IntendedQuarter(SquareQuarter(BinarySquare(Point(0, 0), 4), Point(1, 3))) == NorthWest
    ensures IntendedQuarter(SquareQuarter(BinarySquare(Point(0, 0), 4), Point(1, 1))) == SouthWest
    ensures IntendedQuarter(SquareQuarter(BinarySquare(Point(-4, -4), 4), Point(-3, -3))) == SouthWest
    ensures IntendedQuarter(SquareQuarter(BinarySquare(Point(-4, -4), 4), Point(-3, -1))) == NorthWest
    ensures IntendedQuarter(SquareQuarter(BinarySquare(Point(-4, -4), 4), Point(-1, -3))) == SouthEast
    ensures IntendedQuarter(SquareQuarter(BinarySquare(Point(-4, -4), 4), Point(-1, -1))) == NorthEast
  {
    var a, b := BinarySquare(Point(0, 0), 4), BinarySquare(Point(-4, -4), 4);
    assert Pow2(2) == 4;
    AlignedSpec(a);
    AlignedSpec(b);
    IntendedQuarterSpec(a, Point(3, 3));
    IntendedQuarterSpec(a, Point(3, 1));
    IntendedQuarterSpec(a, Point(1, 3));
    IntendedQuarterSpec(a, Point(1, 1));
    IntendedQuarterSpec(b, Point(-3, -3));
    IntendedQuarterSpec(b, Point(-3, -1));
    IntendedQuarterSpec(b, Point(-1, -3));
    IntendedQuarterSpec(b, Point(-1, -1));
  }

  /** The containment tests: on the anchor's side of zero, the square at
    * (2, 2) of side 2 holds exactly {2, 3}², and the one at (-4, -4)
    * exactly {-4, -3}². */
  lemma HoldsExamples()
    ensures forall p: Point :: p.x >= 0 && p.y >= 0 ==>
      (HoldsPoint(BinarySquare(Point(2, 2), 2), p) <==> 2 <= p.x <= 3 && 2 <= p.y <= 3)
    ensures forall p: Point :: p.x < 0 && p.y < 0 ==>
      (HoldsPoint(BinarySquare(Point(-4, -4), 2), p) <==> -4 <= p.x <= -3 && -4 <= p.y <= -3)
  {
    var a, b := BinarySquare(Point(2, 2), 2), BinarySquare(Point(-4, -4), 2);
    assert Pow2(1) == 2;
    AlignedSpec(a);
    AlignedSpec(b);
    forall p: Point | p.x >= 0 && p.y >= 0
      ensures HoldsPoint(a, p) <==> 2 <= p.x <= 3 && 2 <= p.y <= 3
    {
      HoldsExact(a, p);
    }
    forall p: Point | p.x < 0 && p.y < 0
      ensures HoldsPoint(b, p) <==> -4 <= p.x <= -3 && -4 <= p.y <= -3
    {
      HoldsExact(b, p);
    }
  }

  // ---------------------------------------------------------------------
  // Ranges and overlap

  /** A square overlaps a box exactly when one of its cells is in the box. */
  lemma OverlapsSpec(bbox: BBox, sq: BinarySquare)
    requires 1 <= sq.size && (bbox == FullBox || RangeFits(sq))
    ensures Overlaps(bbox, sq) <==> exists p: Point :: Contains(sq, p) && Holds(bbox, p)
  {
    if bbox == FullBox {
      assert Contains(sq, sq.anchor) && Holds(bbox, sq.anchor);
    } else {
      var r := ToRange(sq);
      IntervalsMeetSpec(bbox.x, r.x);
      IntervalsMeetSpec(bbox.y, r.y);
      if Overlaps(bbox, sq) {
        var vx: int :| InInterval(bbox.x, vx) && InInterval(r.x, vx);
        var vy: int :| InInterval(bbox.y, vy) && InInterval(r.y, vy);
        var p := Point(vx, vy);
        assert Contains(sq, p) && Holds(bbox, p);
      } else {
        forall p: Point | Contains(sq, p)
          ensures !Holds(bbox, p)
        {
          assert InInterval(r.x, p.x) && InInterval(r.y, p.y);
        }
      }
    }
  }


  /** The wrapping square of a point is aligned and contains that point alone. */
  lemma WrappingSpec(p: Point, r: Point)
    ensures Aligned(Wrapping(p)) && (Contains(Wrapping(p), r) <==> r == p)
  {
  }

  // ---------------------------------------------------------------------
  // Examples from the program's own test cases

  lemma MaskValues()
    ensures Mask(1) == -2 && Mask(2) == -4 && Mask(3) == -8
    ensures ShlU32(1, 2) == 4 && ShlU32(1, 3) == 8
  {
    LowMaskValue(1);
    LowMaskValue(2);
    LowMaskValue(3);
  }

  /** The enclosing squares the program's tests expect, on positive
    * coordinates, with the search stepping from width 2 to width 3 where
    * the first candidate misses. */
  lemma CommonExamplesPositive()
    ensures Common(BinarySquare(Point(6, 6), 2), BinarySquare(Point(4, 4), 1)) == Ok(BinarySquare(Point(4, 4), 4))
    ensures Common(BinarySquare(Point(2, 4), 2), BinarySquare(Point(6, 4), 1)) == Ok(BinarySquare(Point(0, 0), 8))
    ensures Common(BinarySquare(Point(4, 2), 2), BinarySquare(Point(4, 6), 1)) == Ok(BinarySquare(Point(0, 0), 8))
  {
    MaskValues();
    assert TrailingZeros(2) == 1;
    assert AndI32(4, -4) == 4 && Xor(4, 6) == 2;
    assert Candidate(Point(4, 4), 2) == BinarySquare(Point(4, 4), 4);
    assert AndI32(2, -4) == 0 && AndI32(0, -4) == 0 && Xor(0, 6) == 6;
    assert Candidate(Point(2, 4), 2) == BinarySquare(Point(0, 4), 4);
    assert Candidate(Point(4, 2), 2) == BinarySquare(Point(4, 0), 4);
    assert AndI32(2, -8) == 0 && AndI32(4, -8) == 0 && Xor(0, 4) == 4;
    assert Candidate(Point(2, 4), 3) == BinarySquare(Point(0, 0), 8);
    assert Candidate(Point(4, 2), 3) == BinarySquare(Point(0, 0), 8);
  }

  /** The program's test case whose anchors are not multiples of the result's side:
    * the candidate of width 2 misses in x, the one of width 3 holds both. */
  lemma CommonExampleUnaligned()
    ensures Common(BinarySquare(Point(130, 46), 2), BinarySquare(Point(133, 47), 1)) == Ok(BinarySquare(Point(128, 40), 8))
  {
    assert TrailingZeros(2) == 1;
    SearchExampleUnaligned();
  }

  lemma SearchExampleUnaligned()
    ensures SearchFrom(Point(130, 46), Point(133, 47), 2) == Some(BinarySquare(Point(128, 40), 8))
  {
    var start, end := Point(130, 46), Point(133, 47);
    var c2, c3 := BinarySquare(Point(128, 44), 4), BinarySquare(Point(128, 40), 8);
    assert Pow2(2) == 4 && Pow2(3) == 8;
    AlignedSpec(c2);
    AlignedSpec(c3);
    AlignedUnique(c2, start, 2);
    AlignedUnique(c3, start, 3);
    HoldsExact(c2, end);
    HoldsExact(c3, end);
  }

  /** The program's test cases on negative coordinates, and the refusal across
    * global quarters. */
  lemma CommonExamplesNegative()
    ensures Common(BinarySquare(Point(-2, -4), 2), BinarySquare(Point(-6, -4), 1)) == Ok(BinarySquare(Point(-8, -8), 8))
    ensures Common(BinarySquare(Point(-4, -2), 2), BinarySquare(Point(-4, -6), 1)) == Ok(BinarySquare(Point(-8, -8), 8))
    ensures Common(BinarySquare(Point(-6, -6), 2), BinarySquare(Point(8, 8), 1)) == Err(DifferentGlobalQuarters)
  {
    MaskValues();
    assert TrailingZeros(2) == 1;
    assert AndI32(-6, -4) == -8 && AndI32(-4, -4) == -4 && Xor(-8, -2) == 6;
    assert Candidate(Point(-6, -4), 2) == BinarySquare(Point(-8, -4), 4);
    assert Candidate(Point(-4, -6), 2) == BinarySquare(Point(-4, -8), 4);
    assert AndI32(-6, -8) == -8 && AndI32(-4, -8) == -8 && Xor(-8, -4) == 4;
    assert Candidate(Point(-6, -4), 3) == BinarySquare(Point(-8, -8), 8);
    assert Candidate(Point(-4, -6), 3) == BinarySquare(Point(-8, -8), 8);
  }

  /** As written, `common` of the unit squares at the origin `a` and at
    * `b = (2^30, 0)`, both in the north-east quarter, panics: no candidate
    * below width 31 reaches `2^30`, and the candidate of width 31 never
    * holds. */
  lemma CommonFarCellsAsWritten(a: Point, b: Point)
    requires a.x == 0 && a.y == 0 && b.x == MAX_SIDE && b.y == 0
    ensures GlobalQuarter(a) == NorthEast && GlobalQuarter(b) == NorthEast
    ensures Common(Wrapping(a), Wrapping(b)) == Err(NoSquareFound)
  {
    var r, l := Wrapping(a), Wrapping(b);
    var start := Point(Min(r.anchor.x, l.anchor.x), Min(r.anchor.y, l.anchor.y));
    var end := Point(Max(r.anchor.x, l.anchor.x), Max(r.anchor.y, l.anchor.y));
    var bits := TrailingZeros(Max(r.size, l.size)) + 1;
    assert start == a && end == b;
    assert bits == 1 by {
      assert TrailingZeros(1) == 0;
    }
    FarSearchNone(a, b);
    assert SearchFrom(start, end, bits) == None;
    CommonPanics(r, l);
  }

  /** The search of that call, from width 1, finds nothing. */
  lemma FarSearchNone(a: Point, b: Point)
    requires a.x == 0 && a.y == 0 && b.x == MAX_SIDE && b.y == 0
    ensures SearchFrom(a, b, 1) == None
  {
    forall i | 1 <= i < 32
      ensures !HoldsPoint(Candidate(a, i), b)
    {
      if i == 31 {
        TopCandidateMisses(a, b);
      } else {
        OriginCandidateMisses(a, b, i);
      }
    }
    SearchNone(a, b, 1);
  }

  /** The candidates of the origin below width 31 are the squares
    * `[0, 2^i)`, which do not reach `(2^30, 0)` under either test. */
  lemma OriginCandidateMisses(a: Point, b: Point, i: nat)
    requires a.x == 0 && a.y == 0 && b.x == MAX_SIDE && b.y == 0 && 1 <= i <= 30
    ensures Candidate(a, i).anchor == a && Candidate(a, i).size == Pow2(i)
    ensures !HoldsPoint(Candidate(a, i), b) && !HoldsPointUnsigned(Candidate(a, i), b)
  {
    Pow2Values();
    Pow2Monotone(i, 30);
    ShlOne(i);
    AndZeroLeft(Mask(i));
    XorZeroLeft(b.x);
  }

  /** With the unsigned test the same search, from width 1, finds the
    * north-east quarter `[0, 2^31)` on both axes. */
  lemma SearchFarCellsCorrected(a: Point, b: Point)
    requires a.x == 0 && a.y == 0 && b.x == MAX_SIDE && b.y == 0
    ensures SearchFromUnsigned(a, b, 1) == Some(BinarySquare(a, 0x8000_0000))
  {
    Pow2Values();
    ShlOne(31);
    AndZeroLeft(Mask(31));
    assert Candidate(a, 31) == BinarySquare(a, 0x8000_0000);
    TopCandidateHolds(a, b);
    FarSearch(a, b, 1);
  }

  /** The unsigned search from width `i` passes over the widths below 31. */
  lemma {:induction false} FarSearch(a: Point, b: Point, i: nat)
    requires a.x == 0 && a.y == 0 && b.x == MAX_SIDE && b.y == 0 && 1 <= i <= 31
    requires HoldsPointUnsigned(Candidate(a, 31), b)
    ensures SearchFromUnsigned(a, b, i) == Some(Candidate(a, 31))
    decreases 31 - i
  {
    if i < 31 {
      OriginCandidateMisses(a, b, i);
      FarSearch(a, b, i + 1);
    }
  }
}
