# Game of Life cell storage, in Dafny

This project models the Rust core of the `game-of-life` WebAssembly module. That core stores the live cells of a Game of Life universe as a sparse set of `i32` points and computes the next generation. The module stores the cells in two ways, and both are modelled:

- **The quadtree** (`wasm/src/quadtree/`).
  - A `BinarySquare` is a square whose side is a power of two and whose anchor is aligned to that side. It has an XOR containment test (`holds`), a two-bit sub-quadrant code (`quarter`), and `common`, which searches upward over sizes for the smallest aligned square that encloses two squares.
  - A `Tree` is a leaf cell, an owned `Node`, or nothing. A `Node` covers a square and has four slots indexed by quadrant code. It implements `has`, `insert` (which splits and grows), and `remove` (which compacts).
  - `SquareNode` and `GlobalNode` give access to the slots by quarter, and the root dispatches on the signs of the coordinates.
  - Two stack-based traversals walk the tree: `Iter` yields every cell, and `Query` prunes the subtrees that miss a box.
  - `Area` is an earlier closed-form computation of the enclosing square. `bbox_around` and `parent_bbox` are box helpers.
- **The sorted vector** (`wasm/src/binary_tree.rs` and its companions).
  - `BinaryTree` keeps the cells strictly increasing in xy order. It implements `has`, `insert` and `remove` by bisection, plus a range `search` driven by the `XYGenerator`, which walks the points of a box in x-major order.
  - `BinaryQuery` is the lazy form of that search.
  - `UpdateList` is a sorted list of cells without repetition, guarded by an area.
  - `cmp_xy_order` and `cmp_zorder` compare points.
- **The universe** (`wasm/src/universe.rs`): `dead`, `fixed`, `tick` and `cell_state`, over an abstract set of live cells.

Modelling choices:

- Coordinates are `i32`, a subset type of `int`; sides are `u32`. A computation that overflows in the program is excluded by a precondition.
- The bitwise operators (`^`, `&`, `!`, shifts) are two's-complement functions on integers. On `i32` operands they give the 32-bit results.
- The quadtree is modelled on values. Every `Node` is owned by exactly one slot through a `Box`, so there is no sharing. The in-place update of a slot (`mem::replace`, slot assignment) is modelled as returning the node with that slot replaced.
- The stateful parts are classes whose methods are proved against specification functions:
  - `Iter`, `Query` and `BinaryQuery` keep their stack or slice in fields;
  - `BinaryTree` and `UpdateList` keep their vector as a `seq` field;
  - `Universe` keeps its live cells as a `set` field.

The quadrant naming follows the program's `quarter` code: bit `0b10` is the upper half in x and bit `0b01` the upper half in y. The name the program then gives that code is discussed under Findings.

## Model

| member | source | states |
|---|---|---|
| Quarters.Index | wasm/src/quadtree/quarter.rs:5-10 | `q as usize` is always one of the four slot indices 0..3 |
| Quarters.QuarterOfSpec | wasm/src/quadtree/quarter.rs:12-22 | each quarter is returned exactly when its pair of sign tests holds, so exactly one quarter applies; a coordinate equal to the origin's counts as north or east |
| Quarters.SameQuarter | wasm/src/quadtree/quarter.rs:12-22 | two points get the same quarter iff they lie on the same side of the origin on both axes |
| Quarters.QuarterExamples | wasm/src/quadtree/quarter.rs:31-36 | the four sign combinations around (0, 0) give NorthEast, SouthEast, NorthWest and SouthWest |
| Squares.SearchArea | wasm/src/quadtree/binary_square.rs:18-36 | the `while` loop over `bits` returns the square the search specification gives, and `None` where the program panics |
| Squares.SearchFound | wasm/src/quadtree/binary_square.rs:18-33 | a found square has a power-of-two side `2^k` with `bits <= k < 32`; it is the aligned candidate at `start` for `k`, it holds `end`, and no smaller candidate from `bits` on holds `end` |
| Squares.SearchNone | wasm/src/quadtree/binary_square.rs:19-35 | the search fails exactly when no candidate from `bits` to 31 holds `end` |
| Squares.TopCandidateMisses | wasm/src/quadtree/binary_square.rs:104-111 | the candidate of side `1 << 31` holds no point: `size as i32` is `i32::MIN`, and no XOR of two i32 values is below it |
| Squares.SearchTopNone | wasm/src/quadtree/binary_square.rs:18-35 | once the search reaches 31 bits it panics, whatever the two points |
| Squares.CommonPanics | wasm/src/quadtree/binary_square.rs:39-53 | `common` panics iff the anchors share a global quarter and the search from one bit above the larger side finds nothing |
| Squares.CommonFarCellsAsWritten | wasm/src/quadtree/binary_square.rs:18-53 | `common` of the unit squares at (0, 0) and (2^30, 0), both north-east, panics |
| Squares.UnsignedAxis | wasm/src/quadtree/binary_square.rs:104-111 | with the XOR compared as `u32`, a candidate of any width up to 31 holds exactly the points of its aligned interval, which contains the start |
| Squares.HoldsAgree | wasm/src/quadtree/binary_square.rs:104-111 | below 31 bits the signed and the unsigned comparison agree for points on the same sides of zero as the start |
| Squares.TopCandidateHolds | wasm/src/quadtree/binary_square.rs:104-111 | with the unsigned comparison the candidate of width 31 holds every point on the same sides of zero as the start |
| Squares.SearchUnsignedIndex | wasm/src/quadtree/binary_square.rs:18-33 | the unsigned search stops at the first width that holds, no later than any width known to hold |
| Squares.SearchUnsignedSucceeds | wasm/src/quadtree/binary_square.rs:18-53 | with the unsigned comparison the search never panics for points on the same sides of zero: it finds an aligned square of side at least `2^bits` containing both points |
| Squares.SearchUnsignedAgrees | wasm/src/quadtree/binary_square.rs:18-33 | wherever the program's search finds a square the unsigned search finds the same one, so the two differ only where the program panics |
| Squares.SearchFarCellsCorrected | wasm/src/quadtree/binary_square.rs:18-53 | with the unsigned comparison, the search for (0, 0) and (2^30, 0) from 1 bit finds the north-east quarter of side `2^31` |
| Squares.CandidateSpec | wasm/src/quadtree/binary_square.rs:20-25 | masking the start with `u32::MAX << bits` gives an aligned square of side `2^bits` that contains the start |
| Squares.CommonRefuses | wasm/src/quadtree/binary_square.rs:39-41 | `common` returns `Err` iff the anchors lie in different global quarters |
| Squares.CommonShape | wasm/src/quadtree/binary_square.rs:44-50 | an `Ok` result is the candidate at the componentwise minimum of the anchors, found from one bit above the larger side; it holds the componentwise maximum, and its side is at least twice the larger input side |
| Squares.CommonIsSearch | wasm/src/quadtree/binary_square.rs:39-50 | for anchors in one global quarter, `common` is the search from the minimum to the maximum of the anchors |
| Squares.CommonEncloses | wasm/src/quadtree/binary_square.rs:39-50 | for aligned squares inside an aligned square twice as wide as both, `common` succeeds with an aligned square that encloses both inputs and lies inside that square |
| Squares.CommonSmallest | wasm/src/quadtree/binary_square.rs:19-31 | the result of `common` is no larger than any aligned square that encloses both inputs and is at least twice as wide as the larger one; sizes are tried in increasing order |
| Squares.WrappingSpec | wasm/src/quadtree/binary_square.rs:55-60 | `wrapping(p)` is an aligned square whose only cell is `p` |
| Squares.SquareQuarter | wasm/src/quadtree/binary_square.rs:63-76 | the code of a point is always in 0..3 |
| Squares.SquareQuarterHalves | wasm/src/quadtree/binary_square.rs:63-76 | inside an aligned square, bit `0b10` of the code is set iff the point is in the upper half in x, and bit `0b01` iff it is in the upper half in y |
| Squares.QuarterCodeSpec | wasm/src/quadtree/binary_square.rs:63-76 | inside an aligned square, a point has code `i` iff it lies in sub-square `i` |
| Squares.QuadrantSpec | wasm/src/quadtree/binary_square.rs:63-76 | each sub-square is aligned, half as wide, and enclosed by the square |
| Squares.HoldsExact | wasm/src/quadtree/binary_square.rs:104-111 | when the anchor and the point lie on the same side of zero on each axis, the XOR test `holds` is true iff the point lies in `[anchor, anchor + size)` on both axes |
| Squares.AlignedSides | wasm/src/quadtree/binary_square.rs:104-111 | every cell of an aligned square lies on its anchor's side of zero, so `holds` is exact for the cells of the square |
| Squares.HoldsAcrossZero | wasm/src/quadtree/binary_square.rs:104-111 | across zero the test is not exact: the square at (2, 2) of side 2 holds (-1, -1) without containing it |
| Squares.HoldsSquareExact | wasm/src/quadtree/binary_square.rs:114-118 | on one side of zero, a square holds another iff it encloses it |
| Squares.HoldsExamples | wasm/src/quadtree/binary_square.rs:250-306 | the square at (2, 2) of side 2 holds exactly {2, 3}² among the non-negative points, and the square at (-4, -4) holds exactly {-4, -3}² among the negative points |
| Squares.OverlapsSpec | wasm/src/quadtree/binary_square.rs:121-169 | a box overlaps a square iff the box holds some cell of the square; the full range overlaps every square without forming its range, any other box is compared with the range `[anchor, anchor + size)`, which must fit in i32 |
| Squares.CommonExamplesPositive | wasm/src/quadtree/binary_square.rs:181-194 | the program's positive cases give {(4,4),4}, {(0,0),8} and {(0,0),8} |
| Squares.CommonExamplesNegative | wasm/src/quadtree/binary_square.rs:196-210 | the negative cases give {(-8,-8),8} twice, and anchors in different quarters give `Err` |
| Squares.CommonExampleUnaligned | wasm/src/quadtree/binary_square.rs:213-218 | the case (130, 46) and (133, 47) gives {(128,40),8} |
| Squares.QuarterNamingAsWritten | wasm/src/quadtree/binary_square.rs:63-76 | as written, `transmute` names code 3, the upper x and upper y quadrant, `SouthWest` |
| Squares.IntendedQuarterSpec | wasm/src/quadtree/binary_square.rs:226-243 | with the naming the quadrant tests expect, the code of a point names its quarter around the square's centre |
| Squares.IntendedQuarterExamples | wasm/src/quadtree/binary_square.rs:226-243 | the eight quadrant cases of the square at (0, 0) and the square at (-4, -4), both of side 4, get the names the program's tests expect |
| Areas.CommonGlobal | wasm/src/quadtree/area.rs:23-29 | the closed-form `common` returns `global()` iff the anchors lie in different global quarters |
| Areas.BitsSpec | wasm/src/quadtree/area.rs:42-47 | `bits` is the bit length of the larger span, and at least 1 for a positive span |
| Areas.RoundedSpec | wasm/src/quadtree/area.rs:47-54 | for `bits >= 1`, that is a positive span, the anchor is the minimum corner rounded down to a multiple of `2^bits`, and the side is `2^bits` |
| Areas.CommonShape | wasm/src/quadtree/area.rs:31-66 | for anchors in one quarter and a positive span, the result is that rounded square, with its side doubled exactly in the corrected case |
| Areas.CommonCases | wasm/src/quadtree/area.rs:56-66 | outside the NorthEast quarter, the side doubles exactly when the far corner lies `size` away from the anchor; otherwise the rounded square is returned unchanged |
| Areas.CellsCommon | wasm/src/quadtree/area.rs:23-70 | for two distinct cells, the closed form gives the rounded anchor and a side of `2^bits`, doubled in the corrected case, where `bits` is the bit length of the larger coordinate difference |
| Areas.AreaHoldsSpec | wasm/src/quadtree/area.rs:86-98 | `Area::holds`, with its unsigned differences, is true iff every cell of the object is a cell of the area |
| Areas.CommonExample1 | wasm/src/quadtree/area.rs:111-114 | the cells (4, 4) and (6, 6) give {(4,4),4} |
| Areas.CommonExample2 | wasm/src/quadtree/area.rs:115-118 | the cells (1, 1) and (3, 3) give {(0,0),4} |
| Areas.CommonExample3 | wasm/src/quadtree/area.rs:119-122 | the cells (1, 3) and (3, 1) give {(0,0),4} |
| Areas.CommonExample4 | wasm/src/quadtree/area.rs:123-126 | the cells (4, 4) and (8, 8) give {(0,0),8} |
| Areas.CommonExample5 | wasm/src/quadtree/area.rs:129-132 | the cells (-7, -7) and (-8, -8) give {(-8,-8),2} |
| Areas.CommonExample6 | wasm/src/quadtree/area.rs:133-136 | the cells (-7, -7) and (-6, -6) give {(-8,-8),4}, the doubled case |
| Areas.CommonExample7 | wasm/src/quadtree/area.rs:139-142 | cells in different quarters give `global()` |
| Areas.HoldsExamples | wasm/src/quadtree/area.rs:151-198 | the area at (2, 2) of side 2 holds exactly the cells {2, 3}², holds itself and its unit cells, and refuses larger or shifted areas |
| Areas.CommonMissesPoint | wasm/src/quadtree/area.rs:23-70 | the cells (1, 1) and (2, 2) give {(0,0),2}, which does not hold (2, 2) |
| Areas.CommonSameCell | wasm/src/quadtree/area.rs:42-54 | for a cell with itself the span is 0, `bits` is 0 and the mask `i32::MAX << 0` clears the sign bit: the result is the unit area at the cell's coordinates modulo `2^31`, which holds the cell iff both coordinates are non-negative |
| Areas.CommonSameNegativeCell | wasm/src/quadtree/area.rs:23-70 | the cell (-7, -7) with itself gives the unit area at (2147483641, 2147483641), which does not hold (-7, -7) |
| ParentBoxes.BBoxAroundSpec | wasm/src/quadtree/utils.rs:5-7 | `bbox_around(p)` holds exactly the cell `p` |
| ParentBoxes.BBoxAroundExample | wasm/src/quadtree/utils.rs:25-28 | `bbox_around((5, 5))` is `[(5,5), (6,6))` |
| ParentBoxes.ParentAxisSpec | wasm/src/quadtree/utils.rs:14-15 | on one axis, the parent extent is twice the child's; the start with its low bits cleared by `!(size - 1)` is a multiple of that extent and covers the child's range |
| ParentBoxes.ParentBBoxSpec | wasm/src/quadtree/utils.rs:10-18 | for an aligned square box of side `2^k`, the parent box is aligned, twice as wide on both axes, and encloses the child |
| ParentBoxes.ParentUnaligned | wasm/src/quadtree/utils.rs:10-18 | alignment is needed: the parent of the unaligned box `[(3,3), (5,5))` misses its cell (4, 4) |
| ParentBoxes.ParentUnitExamples | wasm/src/quadtree/utils.rs:33-71 | the program's cases on positive and negative unit boxes |
| ParentBoxes.ParentExamples | wasm/src/quadtree/utils.rs:73-111 | the program's cases on positive and negative boxes of side 2 |
| Orders.CmpXySpec | wasm/src/utils.rs:22-24 | `cmp_xy_order` is lexicographic with x first; it returns `Equal` iff the points are equal, and swapping the points reverses it |
| Orders.BeforeTotal | wasm/src/utils.rs:22-24 | the xy order is irreflexive, transitive and total |
| Orders.CmpZorder | wasm/src/utils.rs:7-20 | the loop over the dimensions picks the deciding axis and compares the two points on it, as the Z order specification says |
| Orders.ZOrderAntisymmetric | wasm/src/utils.rs:10-19 | swapping the points reverses the Z order |
| Orders.ZOrderNonNegative | wasm/src/utils.rs:11-19 | on non-negative coordinates, the deciding axis is the one whose XOR has the longer bit length; `Equal` means the same point, and points that differ on one axis are compared on that axis |
| Orders.ZOrderSignedAsWritten | wasm/src/utils.rs:7-20 | as written, (0, -1) and (0, 1) compare `Equal` |
| Orders.ZOrderBiasedSpec | wasm/src/utils.rs:7-20 | with `i32::MIN` subtracted from each coordinate, the Z order is `Equal` only for equal points, compares the only differing axis, and is antisymmetric over all of i32 |
| Geometry.AroundBox | wasm/src/universe.rs:173 | the closed box `[p - 1, p + 1]` holds exactly `p` and its eight neighbours |
| XyGenerators.FirstInSpec | wasm/src/xy_generator.rs:45-53 | `first_in` is the lowest value the lower end allows: `l`, `l + 1`, or `i32::MIN` without a lower end |
| XyGenerators.LastInSpec | wasm/src/xy_generator.rs:55-63 | for a given upper end, `last_in` is the highest value it allows |
| XyGenerators.BoxHolds | wasm/src/xy_generator.rs:18-24 | for a box with both upper ends, the points from `first` to `last` are exactly the points the box holds |
| XyGenerators.NextSuccessor | wasm/src/xy_generator.rs:26-41 | from a point of the box, `next` is `None` iff the point is `last`; otherwise it gives the next point of the box in xy order, with no point of the box in between |
| XyGenerators.NextAdvances | wasm/src/xy_generator.rs:26-41 | every step of `next` moves forward in xy order and closer to the end of the walk |
| XyGenerators.FirstLeast | wasm/src/xy_generator.rs:18-20 | `first` is the least point of a non-empty box in xy order |
| XyGenerators.WalkingNext | wasm/src/xy_generator.rs:26-41 | a walk from `first` never overflows `x + 1` or `y + 1` |
| XyGenerators.WalkSpec | wasm/src/xy_generator.rs:26-41 | the walk from a point of the box visits exactly the points of the box from that point on, in increasing order, and ends at `last` |
| XyGenerators.WalkFromFirst | wasm/src/xy_generator.rs:71-110 | the walk from `first` visits every point of a non-empty box exactly once, in x-major order |
| XyGenerators.GeneratorExamples | wasm/src/xy_generator.rs:112-183 | the program's cases for points left of, below, above, right of and at the end of the box `[0, 5]²` |
| XyGenerators.UnboundedWalkStops | wasm/src/xy_generator.rs:55-63 | as written, without upper ends the walk of `[0, ∞)²` stops after (0, 0) although the box holds (0, 1) |
| XyGenerators.LastInIntendedSpec | wasm/src/xy_generator.rs:55-63 | with `i32::MAX` for a missing upper end, `last_in` is the highest allowed value for every upper end |
| BinaryTrees.BinarySearch | wasm/src/binary_tree.rs:29-33 | on a strictly increasing vector, `Ok(i)` gives the index of the point, and `Err(i)` gives the index where it would go, with the point absent |
| BinaryTrees.InsertSorted | wasm/src/binary_tree.rs:79-86 | inserting at the `Err` index keeps the vector strictly increasing and adds exactly the point; a present point leaves the vector as it was |
| BinaryTrees.InsertAt | wasm/src/binary_tree.rs:83-85 | `Vec::insert` at the index where the point belongs keeps the order and adds only that point |
| BinaryTrees.RemoveAt | wasm/src/binary_tree.rs:93-95 | `Vec::remove` at an index keeps the order and drops only that point |
| BinaryTrees.SameCells | wasm/src/binary_tree.rs:10-13 | two strictly increasing vectors with the same points are equal, so the cells determine the vector |
| BinaryTrees.BinaryTree.constructor | wasm/src/binary_tree.rs:17-21 | `new` has no cells |
| BinaryTrees.BinaryTree.Has | wasm/src/binary_tree.rs:29-33 | `has` is membership in the vector |
| BinaryTrees.BinaryTree.Insert | wasm/src/binary_tree.rs:79-86 | the vector stays strictly increasing, gains exactly the point, and is unchanged when the point was present |
| BinaryTrees.BinaryTree.Remove | wasm/src/binary_tree.rs:89-96 | the vector stays strictly increasing, loses exactly the point, and is unchanged when the point was absent |
| BinaryTrees.FilterSpec | wasm/src/binary_tree.rs:35-36 | the points of an area, in vector order, are exactly the points of the vector the area holds, and increasing when the vector is |
| BinaryTrees.BinaryTree.Search | wasm/src/binary_tree.rs:36-76 | the result is increasing and made of cells; for an area with both upper ends and a point, it is exactly the cells the area holds, in xy order |
| BinaryTrees.SearchPoint | wasm/src/binary_tree.rs:44-65 | one round of the loop: a hit adds the point and moves the slice past it; a miss moves the slice to the bisection index and stops past the end; no cell left comes before the point |
| BinaryTrees.SearchExample | wasm/src/binary_tree.rs:105-126 | the program's case: among seven cells, the area `[5, 10]²` holds (5, 5), (5, 10), (10, 5) and (10, 10) |
| BinaryQueries.BinaryQuery.constructor | wasm/src/binary_query.rs:15-24 | the query starts with the whole slice and the generator's first point |
| BinaryQueries.QueryFront | wasm/src/binary_query.rs:43-47 | a held front cell is the first held cell of the slice, and dropping it leaves a valid query state |
| BinaryQueries.QueryHit | wasm/src/binary_query.rs:52-58 | on a hit, the cells before it are not held, it is the first held cell, and dropping through it leaves a valid state |
| BinaryQueries.QueryMiss | wasm/src/binary_query.rs:59-66 | on a miss, the cells before the index are not held; dropping them and stepping the generator leaves a valid state, and the generator moves closer to its end |
| BinaryQueries.BinaryQuery.Next | wasm/src/binary_query.rs:34-72 | what `next` yields is the first held cell of the old slice, and the new slice holds the rest; `None` comes only when the slice is empty or the walk has ended, and once `None`, always `None` |
| UpdateLists.EverywhereHoldsAll | wasm/src/update_list.rs:22-27 | the area `(Unbounded, Unbounded)` of `new` holds every cell |
| UpdateLists.AroundSpec | wasm/src/update_list.rs:69-72 | the walk of the closed 3x3 box visits exactly the cell and its eight neighbours, in increasing order |
| UpdateLists.UpdateList.constructor | wasm/src/update_list.rs:22-27 | `new` has the unbounded area and no cells |
| UpdateLists.UpdateList.Inside | wasm/src/update_list.rs:31-36 | `inside` has the given area and no cells |
| UpdateLists.UpdateList.ChangeArea | wasm/src/update_list.rs:46-48 | the new area is installed, the previous one is returned, and the cells are unchanged |
| UpdateLists.UpdateList.Register | wasm/src/update_list.rs:57-61 | the list stays sorted without repetition, gains exactly the cell, and is unchanged when the cell was there; the area is unchanged |
| UpdateLists.UpdateList.RegisterWithNeighbors | wasm/src/update_list.rs:64-75 | nothing changes when the area does not hold the cell; otherwise the list gains exactly the cell and its eight neighbours, those outside the area included, and loses nothing |
| Universes.Extent | wasm/src/universe.rs:64-65 | `size as i32` gives the number of rows or columns the loops visit, which is zero when the cast is negative |
| Universes.Generation | wasm/src/universe.rs:95-113 | a grid cell is alive in the next generation iff the rules of life, counted in the current generation, say so; cells outside the grid keep their state |
| Universes.CellState | wasm/src/universe.rs:172-186 | the loop over the query of the closed 3x3 box returns whether the cell is alive and the number of its live neighbours |
| Universes.Universe.Dead | wasm/src/universe.rs:39-45 | a dead universe has the given size and no live cell |
| Universes.Universe.IsAlive | wasm/src/universe.rs:156-158 | `is_alive` is membership in the live cells |
| Universes.Universe.SetAlive | wasm/src/universe.rs:161-163 | `set_alive` adds the cell and changes nothing else |
| Universes.Universe.SetDead | wasm/src/universe.rs:166-168 | `set_dead` removes the cell and changes nothing else |
| Universes.Universe.Fixed | wasm/src/universe.rs:61-75 | cell (col, row) is alive iff it is in the grid and `row * width + col` is divisible by 2, 7 or 13 |
| Universes.Universe.Tick | wasm/src/universe.rs:95-113 | the new cells are the next generation of the cells before the tick; every count is taken from the snapshot, never from cells already updated |
| Universes.DeadStaysDead | wasm/src/universe.rs:95-113 | a universe without live cells stays without them |
| Universes.LoneCellDies | wasm/src/universe.rs:104-110 | a single live cell dies and brings no other cell to life |
| Universes.BlockStill | wasm/src/universe.rs:104-110 | the 2x2 block is a still life |
| Trees.NewNodeSpec | wasm/src/quadtree/node.rs:17-22 | a new node has four empty slots and stores nothing |
| Trees.FirstOccupied | wasm/src/quadtree/node.rs:73-81 | the index found is the first non-empty slot, or 4 when every slot is empty |
| Trees.TakeFirstChild | wasm/src/quadtree/node.rs:73-81 | the loop over the slots returns what `extract_child` specifies |
| Trees.ExtractChildSpec | wasm/src/quadtree/node.rs:67-81 | the tree returned and the node left hold the original cells together; with no child, `Empty` comes back and the node is unchanged; with one child, that child comes back and the node is left empty |
| Trees.LeavesInside | wasm/src/quadtree/node.rs:34-65 | every cell stored in a valid node lies in its square |
| Trees.OnlyItsSlot | wasm/src/quadtree/node.rs:24-35 | a cell stored in slot `j` of a valid node has quadrant code `j` |
| Trees.StoredInItsSlot | wasm/src/quadtree/node.rs:24-32 | a valid node stores a cell iff the slot for its quadrant code does |
| Trees.LeavesDistinct | wasm/src/quadtree/node.rs:34-65 | a valid node stores each cell at most once |
| Trees.HasSpec | wasm/src/quadtree/node.rs:24-32 | in a valid node, `has` is true iff the cell is stored |
| Trees.Insert | wasm/src/quadtree/node.rs:34-65 | `insert` keeps the node valid, adds exactly the element's cells, fills the slot for `at`, and leaves the other three slots unchanged |
| Trees.InsertIntoEmpty | wasm/src/quadtree/node.rs:39-41 | an empty slot takes the element |
| Trees.InsertSplits | wasm/src/quadtree/node.rs:42-62 | a leaf, or a node that does not hold the cell, is replaced by a new node over their `common` square, holding the old occupant in one slot and the new leaf in another |
| Trees.InsertDescends | wasm/src/quadtree/node.rs:50-53 | a node that holds the cell receives it, in place of its slot |
| Trees.FreshNode | wasm/src/quadtree/node.rs:42-62 | the new node's `common` square exists, lies in the slot's quadrant, is smaller than the node, and puts the occupant and the cell in different slots |
| Trees.CommonSeparates | wasm/src/quadtree/node.rs:54-61 | `common` of two aligned squares neither of which encloses the other puts them in different quadrants of its result |
| Trees.Remove | wasm/src/quadtree/node.rs:83-105 | `remove` keeps the node valid and removes exactly one copy of the cell |
| Trees.RemoveDescends | wasm/src/quadtree/node.rs:93-102 | a node slot that holds the cell has it removed in place, and the slot keeps a node left with two or more children |
| Trees.Collapse | wasm/src/quadtree/node.rs:97-101 | a node left with one child is replaced by that child, which fits the slot and holds all the node's cells |
| Trees.InsertHas | wasm/src/quadtree/node.rs:24-65 | after inserting a new cell, `has` is true for it and unchanged for every other cell |
| Trees.RemoveHas | wasm/src/quadtree/node.rs:24-32 | after removing a cell, `has` is false for it and unchanged for every other cell |
| Trees.RemoveInsert | wasm/src/quadtree/node.rs:34-105 | removing a cell just inserted gives back the very same node, so compaction undoes every split |
| SquareNodes.NewSquareNodeSpec | wasm/src/quadtree/square_node.rs:17-22 | a new node has its area and four empty slots |
| SquareNodes.IndexOfName | wasm/src/quadtree/square_node.rs:37-39 | reading back the discriminant of the named code gives the code |
| SquareNodes.QuarterChild | wasm/src/quadtree/square_node.rs:27-39 | the child reached through a cell's quarter is the slot for its quadrant code, the slot `has` inspects, whatever the names |
| SquareNodes.SetThenGet | wasm/src/quadtree/square_node.rs:37-44 | `get_child` and `get_child_mut` address the same slot: a write is read back through the same quarter and leaves the other three |
| SquareNodes.ChildrenOrder | wasm/src/quadtree/square_node.rs:32-34 | `children` lists the four slots in discriminant order |
| GlobalNodes.NewGlobalNodeSpec | wasm/src/quadtree/global_node.rs:16-29 | `new` and `default` both give four empty slots |
| GlobalNodes.SharedSlot | wasm/src/quadtree/global_node.rs:38-47 | two cells share a slot iff they share a global quarter |
| GlobalNodes.SharedSlotSigns | wasm/src/quadtree/global_node.rs:38-41 | two cells share a slot iff they lie on the same side of zero on both axes |
| GlobalNodes.WriteThenRead | wasm/src/quadtree/global_node.rs:38-47 | `child_holding` and `child_holding_mut` address the same slot: a write for `p` is read back for every cell of `p`'s quarter, and the other quarters keep their trees |
| Iters.SlotsOfNode | wasm/src/quadtree/iter.rs:28 | a node's four slots hold all its cells and count one tree fewer than the node |
| Iters.ExpandTop | wasm/src/quadtree/iter.rs:23-28 | replacing the top node by its slots keeps the cells of the stack and shrinks it |
| Iters.EnumerateLeaves | wasm/src/quadtree/iter.rs:21-33 | the traversal of a stack yields every stored cell exactly as often as it is stored |
| Iters.IterYieldsAll | wasm/src/quadtree/iter.rs:11-33 | iterating a valid root yields each cell `has` finds exactly once, and no other cell |
| Iters.Iter.constructor | wasm/src/quadtree/iter.rs:11-15 | the stack starts with the root's four slots |
| Iters.Iter.Next | wasm/src/quadtree/iter.rs:21-36 | `next` yields the head of the traversal of the old stack, and the new stack traverses the rest; `None` comes only with an empty stack, and then again |
| Queries.Pruned | wasm/src/quadtree/query.rs:35-39 | a node whose square misses the box stores no cell the box holds, so skipping it loses nothing |
| Queries.SearchHeld | wasm/src/quadtree/query.rs:25-42 | the pruned traversal yields exactly the stored cells the box holds, each as often as it is stored |
| Queries.QueryYieldsHeld | wasm/src/quadtree/query.rs:14-42 | querying a valid root, whose own square may reach the top of the grid, yields a cell once when the root stores it and the box holds it, and never otherwise |
| Queries.RootSearchable | wasm/src/quadtree/binary_square.rs:135-169 | a valid root can be queried with any box when its square ends below the top of the grid, and with the full range always |
| Queries.Query.constructor | wasm/src/quadtree/query.rs:14-19 | the stack starts with the root's four slots, with no overlap test at that level |
| Queries.Query.Next | wasm/src/quadtree/query.rs:25-42 | `next` yields the head of the pruned traversal of the old stack, and the new stack gives the rest; `None` comes only with an empty stack |

## Left out

- TypeScript and TSX front end, build configuration: not part of the Rust core.
- `Universe::random`: it reads `js_sys::Math::random`, a source of randomness outside the program.
- Canvas rendering, the size and style accessors, and `universe_style.rs`: drawing and JavaScript values only.
- `lib.rs` and `set_panic_hook`: foreign calls into the browser.
- `quadtree.rs`: a skeleton whose only path inserts into an empty root; its other branches are `todo!()`.
- `division.rs`, `point.rs` and `traits/overlap.rs`: trait declarations. A point is the division of side 1 at itself (`Areas.PointDivision`, `Squares.Wrapping`), and overlap is `Squares.Overlaps` on the box model of `Geometry`.
- The external box, range and point types: a box is two `Bound` pairs, with `Holds` and the overlap test defined in `Geometry`.
- The `area()` and `iter()` getters of `BinaryTree` and `UpdateList`: plain field reads.
- The unchecked indexing (`transmute`, `get_unchecked`): modelled as total indexing with the index below 4 proved.
- In-place update of the quadtree: a slot written through `mem::replace` or `get_child_mut` is modelled as a new node value, which is equivalent because each node has exactly one owner.
- `Universe` over the quadtree: the universe is modelled over an abstract set of cells. The set is queried through the closed 3x3 box of the binary-tree `cell_state`; the quadtree variant, with the half-open box `[p - 1, p + 2)`, holds the same cells.
- The widths of `usize` and `i64`: `usize` is taken as the wasm target's 32 bits, and the `i64` points of `utils.rs`, `query.rs` and `point.rs` as the `i32` points everything else uses.
- Overflow: every computation that would overflow `i32` or `u32` in the program (`first_in` of `Excluded(i32::MAX)`, `x + 1` at `i32::MAX`, `anchor + size`, the index in `fixed`) is excluded by a precondition rather than modelled as a panic.
- Trees.Insert: requires that the cell is not stored yet. The program has no duplicate check, and inserting a stored cell recurses forever, because both copies fall in the same slot of every enclosing square.
- Trees.Insert: nodes cover aligned squares of side at most `2^30` inside the i32 grid. `holds` compares with `size as i32`, which is `i32::MIN` for side `2^31`, so `common` never returns a square of side `2^31` (`Squares.TopCandidateMisses`); `2^30` is the largest node `common` can build, and two cells of one global quarter `2^30` or more apart make it panic (see Findings).
- Trees.Insert: modelled over `BinarySquare`, because `Area` has no `quarter`.
- Trees.Insert: the `common` square comes from `BinarySquare::common`. The closed form of `area.rs` misses cells (see Findings).
- Trees.Remove: modelled over `BinarySquare`, for the same reason as `Trees.Insert`.
- Trees.Remove: a node slot is descended only when `holds` is true. In a valid node `holds` is exact (`Trees.StoredHeld`).
- BinaryTrees.BinaryTree.Search: states exact results only for areas with both upper ends and at least one point. Without an upper end, `last_in` gives `i32::MIN` (see Findings). For an empty box, the result is still increasing and made of cells.
- BinaryQueries.BinaryQuery.constructor: requires an area with both upper ends and at least one point, for the same reason.
- Squares.SearchArea: the panic is modelled as `None`. It comes whenever no side up to `2^30` fits, because side `2^31` never fits (`Squares.SearchTopNone`).
- ParentBoxes.ParentBBoxSpec: stated for aligned square boxes of side at most `2^29`, the boxes the quadtree forms. An unaligned box can lose cells (`ParentBoxes.ParentUnaligned`).
- UpdateLists.UpdateList.RegisterWithNeighbors: each end of the `UpdateArea` point range is read as bounding each axis by its own coordinate.
- UpdateLists.UpdateList.RegisterWithNeighbors: the 3x3 box is walked in the generator's x-major order, because the range walker of the box library is not part of this model.
- Quarters.GlobalQuarter: `global_quarter` is not part of the source; it is modelled as `quarter` around the origin.
- Areas.CommonShape: stated for a positive span. At span 0 the mask is `i32::MAX`, which does not round down; that case is stated by `Areas.CommonSameCell` (see Findings).
- Areas.RoundedSpec: stated for `bits >= 1`, a positive span, for the same reason; span 0 is stated by `Areas.CommonSameCell`.
- Areas.CellsCommon: stated for two distinct cells, for the same reason; a cell with itself is stated by `Areas.CommonSameCell`.
- Queries.Query.constructor: requires every node among the root's four slots to be valid. Unless the box is the full range, those nodes must also end below `i32::MAX`, because the query then forms the range `anchor..anchor + size` (binary_square.rs:164-169) of each node it meets, which would overflow otherwise. The full range overlaps every square without forming its range (binary_square.rs:135-140), so it accepts any valid root (`Queries.RootSearchable`). The root's own square is never formed into a range, so it may reach the top of the grid.
- Queries.QueryYieldsHeld: requires the same of the root's slots, for the same reason.

## Findings

| source | as written | input that shows it | evidently intended | confidence | as-written member | corrected member |
|---|---|---|---|---|---|---|
| wasm/src/quadtree/binary_square.rs:63-76 | `quarter` builds code 3 for upper x and upper y, and `transmute` names it by the enum's declaration order, where 3 is `SouthWest` | the square at (0, 0) of side 4 and the cell (3, 3): named `SouthWest` | `NorthEast`, as the quadrant tests at lines 226-243 expect | not executed | Squares.QuarterNamingAsWritten | Squares.IntendedQuarterSpec |
| wasm/src/quadtree/area.rs:23-70 | the closed-form `common` rounds the minimum corner down to `2^bits`, where `bits` is the bit length of the span | the cells (1, 1) and (2, 2) give {(0,0),2}, which does not hold (2, 2) | the smallest aligned square enclosing both, as `BinarySquare::common` computes it | not executed | Areas.CommonMissesPoint | Squares.CommonEncloses |
| wasm/src/quadtree/area.rs:42-54 | for a cell with itself the span is 0, so `bits` is 0 and the mask `i32::MAX << 0` is `i32::MAX`, which clears the sign bit instead of rounding | the cell (-7, -7) with itself gives the unit area at (2147483641, 2147483641), which does not hold (-7, -7) | an area that holds the cell, as `BinarySquare::common` gives for aligned squares | not executed | Areas.CommonSameNegativeCell | Squares.CommonEncloses |
| wasm/src/quadtree/binary_square.rs:104-111 | `holds` compares `(a ^ o) < size as i32`, and `size as i32` is `i32::MIN` for the last candidate `1 << 31`, so that candidate never holds and `search_area` panics | the unit squares at (0, 0) and (2^30, 0), both in the north-east quarter | the smallest square containing both (doc comment at line 38), which the last candidate, the whole global quarter, always is; comparing as `u32` gives it | not executed | Squares.CommonFarCellsAsWritten | Squares.SearchUnsignedSucceeds |
| wasm/src/utils.rs:7-20 | `cmp_zorder` compares XORs as signed values, so a negative XOR never wins the deciding axis | (0, -1) and (0, 1) compare `Equal` | the Z order over all signed coordinates, with `Equal` only for equal points | not executed | Orders.ZOrderSignedAsWritten | Orders.ZOrderBiasedSpec |
| wasm/src/xy_generator.rs:55-63 | `last_in` maps a missing upper end to `i32::MIN` | the box `[0, ∞)²`: the walk stops after (0, 0), so (0, 1) is never visited | `i32::MAX`, the highest value a missing upper end allows | not executed | XyGenerators.UnboundedWalkStops | XyGenerators.LastInIntendedSpec |
