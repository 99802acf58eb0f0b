/** `Area`, the earlier closed-form version of the enclosing-square
  * computation, and its containment test.
  *
  * A point takes part as a division of side 1 anchored at itself, so both
  * arguments of `common` are modelled as areas.
  */
module Areas {
  import opened Ints
  import opened Geometry
  import opened Quarters

  datatype Area = Area(anchor: Point, size: u32)

  /** A point as a division: anchored at itself, of side 1. */
  function PointDivision(p: Point): Area
  {
    Area(p, 1)
  }

  /** `Area::global()`. */
  function Global(): Area
  {
    Area(Origin, U32_MAX)
  }

  function Min(a: int, b: int): int
  {
    if a < b then a else b
  }

  function Max(a: int, b: int): int
  {
    if a < b then b else a
  }

  /** `u32::abs_diff` of two i32 values. */
  function AbsDiff(a: i32, b: i32): nat
  {
    if a < b then b - a else a - b
  }

  /** Every cell of `inner` is a cell of `outer`. */
  predicate AreaEncloses(outer: Area, inner: Area)
  {
    outer.anchor.x <= inner.anchor.x && inner.anchor.x + inner.size <= outer.anchor.x + outer.size &&
    outer.anchor.y <= inner.anchor.y && inner.anchor.y + inner.size <= outer.anchor.y + outer.size
  }

  // ---------------------------------------------------------------------
  // The steps of `common`, with the i32/u32 arithmetic they perform

  function StartOf(a: Area, b: Area): Point
  {
    Point(Min(a.anchor.x, b.anchor.x), Min(a.anchor.y, b.anchor.y))
  }

  /** `anchor + size as i32` does not overflow for either area, and
    * subtracting 1 from it stays in range. */
  predicate EndFits(d: Area)
  {
    I32_MIN <= d.anchor.x + AsI32(d.size) <= I32_MAX && I32_MIN <= d.anchor.x + AsI32(d.size) - 1 &&
    I32_MIN <= d.anchor.y + AsI32(d.size) <= I32_MAX && I32_MIN <= d.anchor.y + AsI32(d.size) - 1
  }

  function EndOf(a: Area, b: Area): Point
    requires EndFits(a) && EndFits(b)
  {
    Point(Max(a.anchor.x + AsI32(a.size) - 1, b.anchor.x + AsI32(b.size) - 1),
          Max(a.anchor.y + AsI32(a.size) - 1, b.anchor.y + AsI32(b.size) - 1))
  }

  /** `end - start` does not overflow on either axis. */
  predicate SpanFits(a: Area, b: Area)
    requires EndFits(a) && EndFits(b)
  {
    var s, e := StartOf(a, b), EndOf(a, b);
    I32_MIN <= e.x - s.x <= I32_MAX && I32_MIN <= e.y - s.y <= I32_MAX
  }

  /** `max((end.x - start.x) as u32, (end.y - start.y) as u32)`. */
  function SpanOf(a: Area, b: Area): u32
    requires EndFits(a) && EndFits(b) && SpanFits(a, b)
  {
    var s, e := StartOf(a, b), EndOf(a, b);
    Max(AsU32(e.x - s.x), AsU32(e.y - s.y))
  }

  /** `u32::BITS - span.leading_zeros()`. */
  function BitsOf(a: Area, b: Area): nat
    requires EndFits(a) && EndFits(b) && SpanFits(a, b)
  {
    32 - LeadingZeros(SpanOf(a, b))
  }

  /** The anchor and side before the correction of the non-north-east
    * quarters. */
  function Rounded(a: Area, b: Area): Area
    requires EndFits(a) && EndFits(b) && SpanFits(a, b) && BitsOf(a, b) < 32
  {
    var bits := BitsOf(a, b);
    var mask := ShlI32(I32_MAX, bits);
    var s := StartOf(a, b);
    Area(Point(AndI32(s.x, mask), AndI32(s.y, mask)), ShlU32(1, bits))
  }

  /** `max(end.x.abs_diff(anchor.x), end.y.abs_diff(anchor.y)) == size`. */
  predicate Overflows(a: Area, b: Area)
    requires EndFits(a) && EndFits(b) && SpanFits(a, b) && BitsOf(a, b) < 32
  {
    var r, e := Rounded(a, b), EndOf(a, b);
    Max(AbsDiff(e.x, r.anchor.x), AbsDiff(e.y, r.anchor.y)) == r.size
  }

  /** The arithmetic of `common` runs without overflow or an over-long
    * shift on these inputs (the program panics otherwise). */
  predicate Computable(a: Area, b: Area)
  {
    GlobalQuarter(a.anchor) == GlobalQuarter(b.anchor) ==>
      EndFits(a) && EndFits(b) && SpanFits(a, b) && BitsOf(a, b) < 32 &&
      (GlobalQuarter(a.anchor) != NorthEast && Overflows(a, b) ==> 2 * Rounded(a, b).size <= U32_MAX)
  }

  /** `Area::common`. */
  function Common(a: Area, b: Area): Area
    requires Computable(a, b)
  {
    var quarter := GlobalQuarter(a.anchor);
    if quarter != GlobalQuarter(b.anchor) then
      Global()
    else
      var r := Rounded(a, b);
      if quarter != NorthEast && Overflows(a, b) then Area(r.anchor, 2 * r.size) else r
  }

  /** `area.holds(object)`. */
  predicate AreaHolds(area: Area, obj: Area)
  {
    if obj.size > area.size then
      false
    else
      var left := area.size - obj.size;
      area.anchor.x <= obj.anchor.x && obj.anchor.x - area.anchor.x <= left &&
      area.anchor.y <= obj.anchor.y && obj.anchor.y - area.anchor.y <= left
  }

  // ---------------------------------------------------------------------
  // Properties

  /** `holds` is exactly enclosure of the object's cells. */
  lemma AreaHoldsSpec(area: Area, obj: Area)
    ensures AreaHolds(area, obj) <==> AreaEncloses(area, obj)
  {
  }

  /** `common` gives the global area exactly when the anchors lie in
    * different global quarters. */
  lemma CommonGlobal(a: Area, b: Area)
    requires Computable(a, b)
    ensures Common(a, b) == Global() <==> GlobalQuarter(a.anchor) != GlobalQuarter(b.anchor)
  {
    if GlobalQuarter(a.anchor) == GlobalQuarter(b.anchor) {
      var bits := BitsOf(a, b);
      ShlOne(bits);
      Pow2Values();
      Pow2Monotone(bits, 31);
      CommonCases(a, b);
      assert Common(a, b).size != U32_MAX;
    }
  }

  /** `bits` is the bit length of the span, at least 1 when the span is
    * positive. */
  lemma BitsSpec(a: Area, b: Area)
    requires EndFits(a) && EndFits(b) && SpanFits(a, b)
    ensures BitsOf(a, b) == BitLength(SpanOf(a, b))
    ensures SpanOf(a, b) > 0 ==> BitsOf(a, b) >= 1
  {
    Pow2Values();
    BitLengthBound(SpanOf(a, b), 32);
  }

  /** Before the correction, the anchor is the minimum corner rounded down
    * to a multiple of `2^bits` and the side is `2^bits`. */
  lemma RoundedSpec(a: Area, b: Area)
    requires EndFits(a) && EndFits(b) && SpanFits(a, b) && 1 <= BitsOf(a, b) < 32
    ensures Rounded(a, b).anchor.x == (StartOf(a, b).x / Pow2(BitsOf(a, b))) * Pow2(BitsOf(a, b))
    ensures Rounded(a, b).anchor.y == (StartOf(a, b).y / Pow2(BitsOf(a, b))) * Pow2(BitsOf(a, b))
    ensures Rounded(a, b).size == Pow2(BitsOf(a, b))
  {
    var bits, s := BitsOf(a, b), StartOf(a, b);
    RoundDown(s.x, bits);
    RoundDown(s.y, bits);
    ShlOne(bits);
  }

  /** `x & (i32::MAX << bits)` rounds `x` down to a multiple of `2^bits`. */
  lemma RoundDown(x: i32, bits: nat)
    requires 1 <= bits < 32
    ensures AndI32(x, ShlI32(I32_MAX, bits)) == (x / Pow2(bits)) * Pow2(bits)
  {
    MaxMaskValue(bits);
    AndLowMask(x, bits);
  }

  /** In the same global quarter, with a positive span, the anchor is the
    * minimum corner rounded down to a multiple of `2^bits`, where `bits`
    * is the bit length of the span, and the side is `2^bits`, doubled once
    * outside the north-east quarter when the far corner lies exactly one
    * side away. */
  lemma CommonShape(a: Area, b: Area)
    requires Computable(a, b) && GlobalQuarter(a.anchor) == GlobalQuarter(b.anchor)
    requires SpanOf(a, b) > 0
    ensures BitsOf(a, b) == BitLength(SpanOf(a, b)) && BitsOf(a, b) >= 1
    ensures Common(a, b).anchor.x == (StartOf(a, b).x / Pow2(BitsOf(a, b))) * Pow2(BitsOf(a, b))
    ensures Common(a, b).anchor.y == (StartOf(a, b).y / Pow2(BitsOf(a, b))) * Pow2(BitsOf(a, b))
    ensures Common(a, b).size ==
      if GlobalQuarter(a.anchor) != NorthEast && Overflows(a, b) then 2 * Pow2(BitsOf(a, b)) else Pow2(BitsOf(a, b))
  {
    BitsSpec(a, b);
    RoundedSpec(a, b);
  }

  /** The two outcomes of `common` in a single global quarter. */
  lemma CommonCases(a: Area, b: Area)
    requires Computable(a, b) && GlobalQuarter(a.anchor) == GlobalQuarter(b.anchor)
    ensures GlobalQuarter(a.anchor) != NorthEast && Overflows(a, b) ==>
      Common(a, b) == Area(Rounded(a, b).anchor, 2 * Rounded(a, b).size)
    ensures !(GlobalQuarter(a.anchor) != NorthEast && Overflows(a, b)) ==> Common(a, b) == Rounded(a, b)
  {
  }

  // ---------------------------------------------------------------------
  // The program's test cases

  /** For two single cells `p` and `r` in the same global quarter whose
    * span has `bits` significant bits, the computation is defined and its
    * `bits` is that number. */
  lemma CellsBits(p: Point, r: Point, span: nat, bits: nat)
    requires GlobalQuarter(p) == GlobalQuarter(r)
    requires p.x < I32_MAX && p.y < I32_MAX && r.x < I32_MAX && r.y < I32_MAX
    requires span == Max(Abs(p.x - r.x), Abs(p.y - r.y)) && 1 <= bits < 31
    requires Pow2(bits - 1) <= span < Pow2(bits)
    ensures EndFits(PointDivision(p)) && EndFits(PointDivision(r)) && SpanFits(PointDivision(p), PointDivision(r))
    ensures BitsOf(PointDivision(p), PointDivision(r)) == bits
  {
    var a, b := PointDivision(p), PointDivision(r);
    Pow2Values();
    Pow2Monotone(bits, 30);
    CellsSpan(p, r);
    BitLengthExact(span, bits);
    BitsSpec(a, b);
  }

  /** For two single cells in the same global quarter, the span is the
    * larger distance between their coordinates. */
  lemma CellsSpan(p: Point, r: Point)
    requires GlobalQuarter(p) == GlobalQuarter(r)
    requires p.x < I32_MAX && p.y < I32_MAX && r.x < I32_MAX && r.y < I32_MAX
    ensures EndFits(PointDivision(p)) && EndFits(PointDivision(r)) && SpanFits(PointDivision(p), PointDivision(r))
    ensures SpanOf(PointDivision(p), PointDivision(r)) == Max(Abs(p.x - r.x), Abs(p.y - r.y))
  {
    var a, b := PointDivision(p), PointDivision(r);
    assert StartOf(a, b) == Point(Min(p.x, r.x), Min(p.y, r.y));
    assert EndOf(a, b) == Point(Max(p.x, r.x), Max(p.y, r.y));
  }

  lemma {:induction false} BitLengthExact(n: nat, k: nat)
    requires k >= 1 && Pow2(k - 1) <= n < Pow2(k)
    ensures BitLength(n) == k
    decreases k
  {
    if k > 1 {
      BitLengthExact(n / 2, k - 1);
    }
  }

  /** `common` of two single cells `p` and `r` in the same global quarter,
    * whose span has `bits` significant bits, from the rounded anchor
    * `(ax, ay)` and the side. */
  lemma CellsCommon(p: Point, r: Point, span: nat, bits: nat, ax: i32, ay: i32, size: u32)
    requires GlobalQuarter(p) == GlobalQuarter(r)
    requires p.x < I32_MAX && p.y < I32_MAX && r.x < I32_MAX && r.y < I32_MAX
    requires span == Max(Abs(p.x - r.x), Abs(p.y - r.y)) && 1 <= bits < 31
    requires Pow2(bits - 1) <= span < Pow2(bits)
    requires ax == (Min(p.x, r.x) / Pow2(bits)) * Pow2(bits)
    requires ay == (Min(p.y, r.y) / Pow2(bits)) * Pow2(bits)
    requires size == if GlobalQuarter(p) != NorthEast && Max(Abs(Max(p.x, r.x) - ax), Abs(Max(p.y, r.y) - ay)) == Pow2(bits)
      then 2 * Pow2(bits) else Pow2(bits)
    ensures Computable(PointDivision(p), PointDivision(r))
    ensures Common(PointDivision(p), PointDivision(r)) == Area(Point(ax, ay), size)
  {
    var a, b := PointDivision(p), PointDivision(r);
    CellsBits(p, r, span, bits);
    RoundedSpec(a, b);
    Pow2Values();
    Pow2Monotone(bits, 30);
    CommonCases(a, b);
  }

  lemma CommonExample1()
    ensures Computable(PointDivision(Point(4, 4)), PointDivision(Point(6, 6)))
    ensures Common(PointDivision(Point(4, 4)), PointDivision(Point(6, 6))) == Area(Point(4, 4), 4)
  {
    assert Pow2(2) == 4;
    CellsCommon(Point(4, 4), Point(6, 6), 2, 2, 4, 4, 4);
  }

  lemma CommonExample2()
    ensures Computable(PointDivision(Point(1, 1)), PointDivision(Point(3, 3)))
    ensures Common(PointDivision(Point(1, 1)), PointDivision(Point(3, 3))) == Area(Point(0, 0), 4)
  {
    assert Pow2(2) == 4;
    CellsCommon(Point(1, 1), Point(3, 3), 2, 2, 0, 0, 4);
  }

  lemma CommonExample3()
    ensures Computable(PointDivision(Point(1, 3)), PointDivision(Point(3, 1)))
    ensures Common(PointDivision(Point(1, 3)), PointDivision(Point(3, 1))) == Area(Point(0, 0), 4)
  {
    assert Pow2(2) == 4;
    CellsCommon(Point(1, 3), Point(3, 1), 2, 2, 0, 0, 4);
  }

  lemma CommonExample4()
    ensures Computable(PointDivision(Point(4, 4)), PointDivision(Point(8, 8)))
    ensures Common(PointDivision(Point(4, 4)), PointDivision(Point(8, 8))) == Area(Point(0, 0), 8)
  {
    assert Pow2(3) == 8;
    CellsCommon(Point(4, 4), Point(8, 8), 4, 3, 0, 0, 8);
  }

  lemma CommonExample5()
    ensures Computable(PointDivision(Point(-7, -7)), PointDivision(Point(-8, -8)))
    ensures Common(PointDivision(Point(-7, -7)), PointDivision(Point(-8, -8))) == Area(Point(-8, -8), 2)
  {
    assert Pow2(1) == 2;
    CellsCommon(Point(-7, -7), Point(-8, -8), 1, 1, -8, -8, 2);
  }

  /** The far corner lies exactly one side from the rounded anchor, so the
    * side is doubled. */
  lemma CommonExample6()
    ensures Computable(PointDivision(Point(-7, -7)), PointDivision(Point(-6, -6)))
    ensures Common(PointDivision(Point(-7, -7)), PointDivision(Point(-6, -6))) == Area(Point(-8, -8), 4)
  {
    assert Pow2(1) == 2;
    CellsCommon(Point(-7, -7), Point(-6, -6), 1, 1, -8, -8, 4);
  }

  lemma CommonExample7()
    ensures Computable(PointDivision(Point(-7, -7)), PointDivision(Point(8, 8)))
    ensures Common(PointDivision(Point(-7, -7)), PointDivision(Point(8, 8))) == Global()
  {
  }

  /** The containment tests of the program. */
  lemma HoldsExamples()
    ensures forall p: Point :: AreaHolds(Area(Point(2, 2), 2), PointDivision(p)) <==> 2 <= p.x <= 3 && 2 <= p.y <= 3
    ensures AreaHolds(Area(Point(2, 2), 2), Area(Point(2, 2), 2))
    ensures AreaHolds(Area(Point(2, 2), 2), Area(Point(3, 3), 1))
    ensures !AreaHolds(Area(Point(2, 2), 2), Area(Point(2, 2), 3))
    ensures !AreaHolds(Area(Point(2, 2), 2), Area(Point(2, 3), 2))
    ensures !AreaHolds(Area(Point(2, 2), 2), Area(Point(3, 2), 2))
    ensures !AreaHolds(Area(Point(2, 2), 2), Area(Point(3, 3), 2))
  {
  }

  /** As written, `common` of the points (1, 1) and (2, 2) is the square at
    * the origin of side 2, which does not hold (2, 2). */
  lemma CommonMissesPoint()
    ensures Computable(PointDivision(Point(1, 1)), PointDivision(Point(2, 2)))
    ensures Common(PointDivision(Point(1, 1)), PointDivision(Point(2, 2))) == Area(Point(0, 0), 2)
    ensures !AreaHolds(Common(PointDivision(Point(1, 1)), PointDivision(Point(2, 2))), PointDivision(Point(2, 2)))
  {
    assert Pow2(1) == 2;
    CellsCommon(Point(1, 1), Point(2, 2), 1, 1, 0, 0, 2);
  }

  /** With a span of 0, `bits` is 0 and the mask `i32::MAX << 0` is
    * `i32::MAX` itself, which clears the sign bit: `common` of a cell with
    * itself is the unit area at the cell taken modulo `2^31`, so it holds
    * the cell only when both coordinates are non-negative. */
  lemma CommonSameCell(p: Point)
    requires p.x < I32_MAX && p.y < I32_MAX
    ensures Computable(PointDivision(p), PointDivision(p))
    ensures Common(PointDivision(p), PointDivision(p)) == Area(Point(p.x % 0x8000_0000, p.y % 0x8000_0000), 1)
    ensures AreaHolds(Common(PointDivision(p), PointDivision(p)), PointDivision(p)) <==> p.x >= 0 && p.y >= 0
  {
    var a := PointDivision(p);
    var c := Area(Point(p.x % 0x8000_0000, p.y % 0x8000_0000), 1);
    SameCellRounded(p);
    SameCellNoOverflow(p);
    assert Common(a, a) == c;
    SignBitValue(p.x);
    SignBitValue(p.y);
  }

  /** For a cell with itself the rounding is the unit area at the cell's
    * coordinates modulo `2^31`. */
  lemma SameCellRounded(p: Point)
    requires p.x < I32_MAX && p.y < I32_MAX
    ensures EndFits(PointDivision(p)) && SpanFits(PointDivision(p), PointDivision(p))
    ensures BitsOf(PointDivision(p), PointDivision(p)) == 0
    ensures Rounded(PointDivision(p), PointDivision(p)) == Area(Point(p.x % 0x8000_0000, p.y % 0x8000_0000), 1)
  {
    SameCellBits(p);
    SignBitCleared(p.x);
    SignBitCleared(p.y);
  }

  /** ... and that rounding does not overflow: the cell is `0` or `2^31`
    * away from its anchor, never the side `1`. */
  lemma SameCellNoOverflow(p: Point)
    requires p.x < I32_MAX && p.y < I32_MAX
    ensures EndFits(PointDivision(p)) && SpanFits(PointDivision(p), PointDivision(p))
    ensures BitsOf(PointDivision(p), PointDivision(p)) == 0
    ensures !Overflows(PointDivision(p), PointDivision(p))
  {
    SameCellRounded(p);
    var a := PointDivision(p);
    SignBitValue(p.x);
    SignBitValue(p.y);
    assert EndOf(a, a) == p;
  }

  /** Clearing the sign bit of an i32 keeps a non-negative value and adds
    * `2^31` to a negative one. */
  lemma SignBitValue(x: i32)
    ensures x % 0x8000_0000 == if x >= 0 then x else x + 0x8000_0000
  {
    if x < 0 {
      DivUnique(x, 0x8000_0000, -1);
    } else {
      DivUnique(x, 0x8000_0000, 0);
    }
  }

  /** A cell with itself spans nothing, so `bits` is 0. */
  lemma SameCellBits(p: Point)
    requires p.x < I32_MAX && p.y < I32_MAX
    ensures EndFits(PointDivision(p)) && SpanFits(PointDivision(p), PointDivision(p))
    ensures StartOf(PointDivision(p), PointDivision(p)) == p && EndOf(PointDivision(p), PointDivision(p)) == p
    ensures BitsOf(PointDivision(p), PointDivision(p)) == 0
  {
    var a := PointDivision(p);
    assert StartOf(a, a) == p && EndOf(a, a) == p;
    assert SpanOf(a, a) == 0;
  }

  /** `x & (i32::MAX << 0)` clears the sign bit: it is `x` modulo `2^31`. */
  lemma SignBitCleared(x: i32)
    ensures ShlI32(I32_MAX, 0) == I32_MAX
    ensures AndI32(x, ShlI32(I32_MAX, 0)) == x % 0x8000_0000
  {
    assert Pow2(0) == 1;
    Pow2Values();
    AndLowBits(x, 31);
  }

  /** A negative cell. */
  const NegativeCell: Point := Point(-7, -7)

  /** As written, `common` of the cell (-7, -7) with itself is the unit
    * area at (2147483641, 2147483641), which does not hold (-7, -7). */
  lemma CommonSameNegativeCell()
    ensures Computable(PointDivision(NegativeCell), PointDivision(NegativeCell))
    ensures Common(PointDivision(NegativeCell), PointDivision(NegativeCell)) == Area(Point(2147483641, 2147483641), 1)
    ensures !AreaHolds(Common(PointDivision(NegativeCell), PointDivision(NegativeCell)), PointDivision(NegativeCell))
  {
    assert NegativeCell.x % 0x8000_0000 == 2147483641 && NegativeCell.y % 0x8000_0000 == 2147483641;
    CommonSameCell(NegativeCell);
  }
}
