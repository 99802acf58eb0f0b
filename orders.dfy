/** The two orders on points: the lexicographic xy order, which keeps the
  * sorted cell vectors, and the Z order, which interleaves the bits of
  * the coordinates. */
module Orders {
  import opened Ints
  import opened Geometry

  datatype Ordering = Less | Equal | Greater

  /** `a.cmp(&b)` on integers. */
  function Compare(a: int, b: int): Ordering
  {
    if a < b then Less else if a == b then Equal else Greater
  }

  function Reverse(o: Ordering): Ordering
  {
    match o
    case Less => Greater
    case Equal => Equal
    case Greater => Less
  }

  /** A coordinate by its dimension, as `point[dim]`. */
  function Coord(p: Point, dim: nat): i32
    requires dim < 2
  {
    if dim == 0 then p.x else p.y
  }

  // ---------------------------------------------------------------------
  // xy order

  /** `cmp_xy_order`: the coordinates compared in turn, x first. */
  function CmpXy(lhs: Point, rhs: Point): Ordering
  {
    if lhs.x != rhs.x then Compare(lhs.x, rhs.x) else Compare(lhs.y, rhs.y)
  }

  /** `lhs` comes strictly before `rhs` in xy order. */
  predicate Before(lhs: Point, rhs: Point)
  {
    CmpXy(lhs, rhs) == Less
  }

  /** The xy order is lexicographic, `Equal` means the same point, and
    * swapping the points reverses the result. */
  lemma CmpXySpec(lhs: Point, rhs: Point)
    ensures Before(lhs, rhs) <==> lhs.x < rhs.x || (lhs.x == rhs.x && lhs.y < rhs.y)
    ensures CmpXy(lhs, rhs) == Equal <==> lhs == rhs
    ensures CmpXy(rhs, lhs) == Reverse(CmpXy(lhs, rhs))
  {
  }

  /** The xy order is a strict total order. */
  lemma BeforeTotal(a: Point, b: Point, c: Point)
    ensures !Before(a, a)
    ensures Before(a, b) && Before(b, c) ==> Before(a, c)
    ensures a == b || Before(a, b) || Before(b, a)
  {
  }

  /** Strictly increasing in xy order, so without repetition. */
  predicate Increasing(s: seq<Point>)
  {
    forall i, j :: 0 <= i < j < |s| ==> Before(s[i], s[j])
  }

  // ---------------------------------------------------------------------
  // Z order

  /** The test that picks the deciding axis: `a < b && a < (a ^ b)`. */
  predicate MsbBelow(a: int, b: int)
  {
    a < b && a < Xor(a, b)
  }

  /** The Z order of two points given by their coordinates: the axis whose
    * coordinates differ in the more significant bit decides, x on a tie. */
  function ZOrderOf(lx: int, ly: int, rx: int, ry: int): Ordering
  {
    if MsbBelow(Xor(lx, rx), Xor(ly, ry)) then Compare(ly, ry) else Compare(lx, rx)
  }

  /** The deciding axis of `cmp_zorder`. */
  function ZAxis(lhs: Point, rhs: Point): (dim: nat)
    ensures dim < 2
  {
    if MsbBelow(Xor(lhs.x, rhs.x), Xor(lhs.y, rhs.y)) then 1 else 0
  }

  function ZOrder(lhs: Point, rhs: Point): Ordering
  {
    ZOrderOf(lhs.x, lhs.y, rhs.x, rhs.y)
  }

  /** `cmp_zorder`: for each dimension, the running deciding axis `msd` is
    * replaced by that dimension when its XOR has the higher set bit; the
    * coordinates on `msd` are then compared. */
  method CmpZorder(lhs: Point, rhs: Point) returns (o: Ordering)
    ensures o == ZOrder(lhs, rhs)
    ensures o == Compare(Coord(lhs, ZAxis(lhs, rhs)), Coord(rhs, ZAxis(lhs, rhs)))
  {
    var msd := 0;
    for dim := 0 to 2
      invariant msd == if dim == 2 then ZAxis(lhs, rhs) else 0
    {
      var a := Xor(Coord(lhs, msd), Coord(rhs, msd));
      var b := Xor(Coord(lhs, dim), Coord(rhs, dim));
      if a < b && a < Xor(a, b) {
        msd := dim;
      }
    }
    o := Compare(Coord(lhs, msd), Coord(rhs, msd));
  }

  /** Swapping the points reverses the Z order, because XOR is symmetric. */
  lemma ZOrderAntisymmetric(lx: int, ly: int, rx: int, ry: int)
    ensures ZOrderOf(rx, ry, lx, ly) == Reverse(ZOrderOf(lx, ly, rx, ry))
  {
    XorSymmetric(lx, rx);
    XorSymmetric(ly, ry);
  }

  /** On non-negative coordinates the deciding axis is the one whose XOR
    * has the longer binary expansion, `Equal` means the same point, and
    * when the points differ on one axis only, that axis is compared. */
  lemma ZOrderNonNegative(lx: nat, ly: nat, rx: nat, ry: nat)
    ensures Xor(lx, rx) >= 0 && Xor(ly, ry) >= 0
    ensures ZOrderOf(lx, ly, rx, ry) ==
      if BitLength(Xor(lx, rx)) < BitLength(Xor(ly, ry)) then Compare(ly, ry) else Compare(lx, rx)
    ensures ZOrderOf(lx, ly, rx, ry) == Equal <==> lx == rx && ly == ry
    ensures lx == rx ==> ZOrderOf(lx, ly, rx, ry) == Compare(ly, ry)
    ensures ly == ry ==> ZOrderOf(lx, ly, rx, ry) == Compare(lx, rx)
  {
    XorNegative(lx, rx);
    XorNegative(ly, ry);
    var a: nat := Xor(lx, rx);
    var b: nat := Xor(ly, ry);
    LessMsb(a, b);
    XorZero(lx, rx);
    XorZero(ly, ry);
    if lx == rx {
      XorZeroLeft(b);
    }
  }

  /** `cmp_zorder` as written reports `Equal` for the distinct points
    * (0, -1) and (0, 1): the XOR of their y coordinates is negative, so the
    * test never picks the y axis, and their x coordinates are equal. */
  lemma ZOrderSignedAsWritten()
    ensures ZOrder(Point(0, -1), Point(0, 1)) == Equal
  {
    XorZero(0, 0);
    XorNegative(-1, 1);
  }

  /** The Z order over all of i32, with `i32::MIN` subtracted from each
    * coordinate so that the sign bit orders like the other bits. */
  function ZOrderBiased(lhs: Point, rhs: Point): Ordering
  {
    ZOrderOf(lhs.x - I32_MIN, lhs.y - I32_MIN, rhs.x - I32_MIN, rhs.y - I32_MIN)
  }

  /** The offset Z order reports `Equal` only for equal points, compares
    * the only differing axis, and is antisymmetric, for every i32 point. */
  lemma ZOrderBiasedSpec(lhs: Point, rhs: Point)
    ensures ZOrderBiased(lhs, rhs) == Equal <==> lhs == rhs
    ensures lhs.x == rhs.x ==> ZOrderBiased(lhs, rhs) == Compare(lhs.y, rhs.y)
    ensures lhs.y == rhs.y ==> ZOrderBiased(lhs, rhs) == Compare(lhs.x, rhs.x)
    ensures ZOrderBiased(rhs, lhs) == Reverse(ZOrderBiased(lhs, rhs))
  {
    var lx, ly, rx, ry := lhs.x - I32_MIN, lhs.y - I32_MIN, rhs.x - I32_MIN, rhs.y - I32_MIN;
    assert Compare(lx, rx) == Compare(lhs.x, rhs.x) && Compare(ly, ry) == Compare(lhs.y, rhs.y);
    ZOrderNonNegative(lx, ly, rx, ry);
    ZOrderAntisymmetric(lx, ly, rx, ry);
  }
}
