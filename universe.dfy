/** The life universe: a width and a height, and the set of live cells.
  * Only the cells of `[0, width) x [0, height)` are ever examined; `tick`
  * computes the next generation from a snapshot of the current one. */
module Universes {
  import opened Ints
  import opened Geometry

  /** `n as i32` for a `usize` on the 32-bit target, taken as the length of
    * the range `0..n as i32` (empty when the cast is negative). */
  function Extent(n: u32): (r: nat)
    ensures r <= I32_MAX
    ensures n <= I32_MAX ==> r == n
    ensures n > I32_MAX ==> r == 0
  {
    if AsI32(n) < 0 then 0 else AsI32(n)
  }

  /** `p` is one of the cells the loops of `fixed` and `tick` visit. */
  predicate InGrid(p: Point, cols: nat, rows: nat)
  {
    0 <= p.x < cols && 0 <= p.y < rows
  }

  /** The live cells around `p`, `p` itself excluded. */
  function Neighbours(cells: set<Point>, p: Point): set<Point>
  {
    set q | q in cells && q != p && Near(p, q)
  }

  function NeighbourCount(cells: set<Point>, p: Point): nat
  {
    |Neighbours(cells, p)|
  }

  /** The rules of life: a live cell survives with two or three neighbours,
    * a dead cell is born with exactly three. */
  predicate Lives(alive: bool, neighbours: nat)
  {
    if alive then 2 <= neighbours <= 3 else neighbours == 3
  }

  /** The cells of the grid. */
  function Grid(cols: nat, rows: nat): set<Point>
    requires cols <= I32_MAX && rows <= I32_MAX
  {
    set x: int, y: int | 0 <= x < cols && 0 <= y < rows :: Point(x, y)
  }

  /** The generation after `cells`: inside the grid each cell follows the
    * rules of life, counted in `cells`; outside it nothing changes. */
  function Generation(cells: set<Point>, cols: nat, rows: nat): (r: set<Point>)
    requires cols <= I32_MAX && rows <= I32_MAX
    ensures forall p :: p in r <==>
      if InGrid(p, cols, rows) then Lives(p in cells, NeighbourCount(cells, p)) else p in cells
  {
    assert forall p :: InGrid(p, cols, rows) ==> p in Grid(cols, rows);
    set p | p in cells + Grid(cols, rows) &&
      if InGrid(p, cols, rows) then Lives(p in cells, NeighbourCount(cells, p)) else p in cells
  }

  /** The cells `fixed` sets alive: `i % 2 == 0 || i % 7 == 0 || i % 13 == 0`
    * for the index `i = row * width + col`. */
  predicate FixedPattern(i: int)
  {
    i % 2 == 0 || i % 7 == 0 || i % 13 == 0
  }

  /** `cell_state`: runs through the query of the closed 3x3 box around
    * `point` over the live cells, in whatever order it yields them, noting
    * whether `point` itself is met and counting the others. The result is
    * whether `point` is alive and how many live neighbours it has. */
  method CellState(cells: set<Point>, point: Point) returns (alive: bool, neighbours: nat)
    requires Inner(point)
    ensures alive <==> point in cells
    ensures neighbours == NeighbourCount(cells, point)
  {
    var found := set q | q in cells && Holds(AroundBox(point), q);
    var seen: set<Point> := {};
    var remaining := found;
    alive, neighbours := false, 0;
    while remaining != {}
      invariant Tally(found, seen, remaining, point, alive, neighbours)
      decreases |remaining|
    {
      var pt :| pt in remaining;
      TallyStep(found, seen, remaining, point, alive, neighbours, pt);
      if pt == point {
        alive := true;
      } else {
        neighbours := neighbours + 1;
      }
      seen := seen + {pt};
      remaining := remaining - {pt};
    }
    FoundNeighbours(cells, point, found);
  }

  /** Part way through the query: `seen` and `remaining` split what it
    * yields, and the flag and the count describe `seen`. */
  ghost predicate Tally(found: set<Point>, seen: set<Point>, remaining: set<Point>, point: Point, alive: bool, neighbours: nat)
  {
    seen !! remaining && seen + remaining == found &&
    (alive <==> point in seen) && neighbours == |seen - {point}|
  }

  /** Meeting a new cell counts it unless it is `point` itself. */
  lemma TallyStep(found: set<Point>, seen: set<Point>, remaining: set<Point>, point: Point, alive: bool, neighbours: nat, pt: Point)
    requires Tally(found, seen, remaining, point, alive, neighbours) && pt in remaining
    ensures Tally(found, seen + {pt}, remaining - {pt}, point, alive || pt == point, neighbours + if pt == point then 0 else 1)
    ensures |remaining - {pt}| < |remaining|
  {
    assert (seen + {pt}) + (remaining - {pt}) == found;
    CountStep(seen, pt, point);
  }

  lemma CountStep(seen: set<Point>, pt: Point, point: Point)
    requires pt !in seen
    ensures |(seen + {pt}) - {point}| == |seen - {point}| + if pt == point then 0 else 1
  {
    if pt == point {
      assert (seen + {pt}) - {point} == seen - {point};
    } else {
      assert (seen + {pt}) - {point} == (seen - {point}) + {pt};
    }
  }

  /** The query of the 3x3 box yields `point`'s neighbours and possibly
    * `point`. */
  lemma FoundNeighbours(cells: set<Point>, point: Point, found: set<Point>)
    requires Inner(point)
    requires found == set q | q in cells && Holds(AroundBox(point), q)
    ensures found - {point} == Neighbours(cells, point)
  {
  }

  /** `Universe`: its size and its live cells. */
  class Universe {
    const width: u32
    const height: u32
    var cells: set<Point>

    /** `dead`: the given size, no live cell. */
    constructor Dead(width: u32, height: u32)
      ensures this.width == width && this.height == height && cells == {}
    {
      this.width := width;
      this.height := height;
      cells := {};
    }

    /** `is_alive`: membership in the live cells. */
    function IsAlive(p: Point): (b: bool)
      reads this
      ensures b <==> p in cells
    {
      p in cells
    }

    /** `set_alive`: `p` joins the live cells, nothing else changes. */
    method SetAlive(p: Point)
      modifies this
      ensures cells == old(cells) + {p}
    {
      cells := cells + {p};
    }

    /** `set_dead`: `p` leaves the live cells, nothing else changes. */
    method SetDead(p: Point)
      modifies this
      ensures cells == old(cells) - {p}
    {
      cells := cells - {p};
    }

    /** `fixed`: a dead universe whose cells of the grid are set alive, row
      * by row, where their index matches the pattern. The index must fit in
      * i32: the grid has at most 2^31 cells. */
    static method Fixed(width: u32, height: u32) returns (u: Universe)
      requires Extent(width) * Extent(height) <= I32_MAX + 1
      ensures fresh(u) && u.width == width && u.height == height
      ensures forall p :: p in u.cells <==>
        InGrid(p, Extent(width), Extent(height)) && FixedPattern(p.y * Extent(width) + p.x)
    {
      u := new Universe.Dead(width, height);
      var cols, rows := Extent(width), Extent(height);
      for row := 0 to rows
        invariant forall p :: p in u.cells <==> InGrid(p, cols, row) && FixedPattern(p.y * cols + p.x)
      {
        for col := 0 to cols
          invariant forall p :: p in u.cells <==>
            (InGrid(p, cols, row) || (p.y == row && 0 <= p.x < col)) && FixedPattern(p.y * cols + p.x)
        {
          MulBelow(row, cols, rows);
          var i: i32 := row * cols + col;
          if i % 2 == 0 || i % 7 == 0 || i % 13 == 0 {
            u.SetAlive(Point(col, row));
          }
        }
      }
    }

    /** `tick`: every cell of the grid, row by row, is given its state in
      * the next generation, counted in the snapshot taken before the first
      * change: a live cell without two or three neighbours dies, a dead
      * cell with three is born, the others keep their state. */
    method Tick()
      modifies this
      ensures cells == Generation(old(cells), Extent(width), Extent(height))
    {
      var before := cells;
      var cols, rows := Extent(width), Extent(height);
      for row := 0 to rows
        invariant forall p :: p in cells <==>
          if InGrid(p, cols, row) then Lives(p in before, NeighbourCount(before, p)) else p in before
      {
        for col := 0 to cols
          invariant forall p :: p in cells <==>
            if InGrid(p, cols, row) || (p.y == row && 0 <= p.x < col)
            then Lives(p in before, NeighbourCount(before, p))
            else p in before
        {
          var point := Point(col, row);
          var isAlive, neighbours := CellState(before, point);
          if isAlive {
            if !(2 <= neighbours <= 3) {
              SetDead(point);
            }
          } else if neighbours == 3 {
            SetAlive(point);
          }
        }
      }
    }
  }

  // ---------------------------------------------------------------------
  // Generations

  /** A subset has no more elements than its superset. */
  lemma {:induction false} CardSubset(a: set<Point>, b: set<Point>)
    requires a <= b
    ensures |a| <= |b|
    decreases |b|
  {
    if a != {} {
      var x :| x in a;
      CardSubset(a - {x}, b - {x});
    }
  }

  /** A universe without live cells stays without them. */
  lemma DeadStaysDead(cols: nat, rows: nat)
    requires cols <= I32_MAX && rows <= I32_MAX
    ensures Generation({}, cols, rows) == {}
  {
    forall p | InGrid(p, cols, rows)
      ensures NeighbourCount({}, p) == 0
    {
      assert Neighbours({}, p) == {};
    }
  }

  /** A live cell without neighbours dies, and it is too few to bring any
    * other cell to life. */
  lemma LoneCellDies(c: Point, cols: nat, rows: nat)
    requires cols <= I32_MAX && rows <= I32_MAX && InGrid(c, cols, rows)
    ensures Generation({c}, cols, rows) == {}
  {
    forall p | InGrid(p, cols, rows)
      ensures !Lives(p in {c}, NeighbourCount({c}, p))
    {
      CardSubset(Neighbours({c}, p), {c});
      if p == c {
        assert Neighbours({c}, p) == {};
      }
    }
  }

  /** The 2x2 block. */
  const Block: set<Point> := {Point(1, 1), Point(1, 2), Point(2, 1), Point(2, 2)}

  /** Every cell of the block has three neighbours in it; every other cell
    * of the 4x4 grid has at most two. */
  lemma BlockNeighbours(p: Point)
    requires InGrid(p, 4, 4)
    ensures p in Block ==> NeighbourCount(Block, p) == 3
    ensures p !in Block ==> NeighbourCount(Block, p) <= 2
  {
    if p in Block {
      assert Neighbours(Block, p) == Block - {p};
    } else if p.x == 0 {
      CardSubset(Neighbours(Block, p), {Point(1, 1), Point(1, 2)});
    } else if p.x == 3 {
      CardSubset(Neighbours(Block, p), {Point(2, 1), Point(2, 2)});
    } else if p.y == 0 {
      CardSubset(Neighbours(Block, p), {Point(1, 1), Point(2, 1)});
    } else {
      CardSubset(Neighbours(Block, p), {Point(1, 2), Point(2, 2)});
    }
  }

  /** The block is a still life: a tick leaves it as it is. */
  lemma BlockStill()
    ensures Generation(Block, 4, 4) == Block
  {
    forall p | InGrid(p, 4, 4)
      ensures Lives(p in Block, NeighbourCount(Block, p)) <==> p in Block
    {
      BlockNeighbours(p);
    }
  }

  /** The index of a grid cell stays below the number of cells. */
  lemma MulBelow(row: nat, cols: nat, rows: nat)
    requires row < rows
    ensures row * cols + cols <= rows * cols
  {
    assert (row + 1) * cols <= rows * cols;
  }
}
