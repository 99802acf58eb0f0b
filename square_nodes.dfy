/** The interior node addressed by quarter: a square area and four slots,
  * read and written through the quarter a cell falls in. */
module SquareNodes {
  import opened Geometry
  import opened Quarters
  import opened Squares
  import opened Trees

  datatype SquareNode = SquareNode(area: BinarySquare, children: Quad)

  /** `SquareNode::new`: four empty slots. */
  function NewSquareNode(area: BinarySquare): SquareNode
  {
    SquareNode(area, Vacant)
  }

  /** `quarter(point)`: the area's quadrant code, named as the program's
    * `transmute` names it. */
  function NodeQuarter(n: SquareNode, p: Point): Quarter
  {
    QuarterName(SquareQuarter(n.area, p))
  }

  /** `children()`: the four slots in index order. */
  function Children(n: SquareNode): seq<Tree>
  {
    Slots(n.children)
  }

  /** `get_child(quarter)`: the slot at index `quarter as usize`. */
  function GetChild(n: SquareNode, q: Quarter): Tree
  {
    Slot(n.children, Index(q))
  }

  /** A write through `get_child_mut(quarter)`: the same slot replaced. */
  function SetChild(n: SquareNode, q: Quarter, t: Tree): SquareNode
  {
    n.(children := Replace(n.children, Index(q), t))
  }

  /** Naming a code and reading its discriminant back gives the code. */
  lemma IndexOfName(code: nat)
    requires code < 4
    ensures Index(QuarterName(code)) == code
  {
  }

  /** A new node has four empty slots. */
  lemma NewSquareNodeSpec(area: BinarySquare)
    ensures NewSquareNode(area).area == area
    ensures |Children(NewSquareNode(area))| == 4
    ensures forall i :: 0 <= i < 4 ==> Children(NewSquareNode(area))[i] == Empty
  {
  }

  /** The child reached through a cell's quarter is the slot for the cell's
    * quadrant code, the slot `has` inspects, whatever the names. */
  lemma QuarterChild(n: SquareNode, p: Point)
    ensures GetChild(n, NodeQuarter(n, p)) == Slot(n.children, SquareQuarter(n.area, p))
    ensures Has(Node(n.area, n.children), p) <==>
      GetChild(n, NodeQuarter(n, p)) == Leaf(p) ||
      (GetChild(n, NodeQuarter(n, p)).Branch? && HoldsPoint(GetChild(n, NodeQuarter(n, p)).node.area, p) &&
       Has(GetChild(n, NodeQuarter(n, p)).node, p))
  {
    IndexOfName(SquareQuarter(n.area, p));
  }

  /** `get_child` and `get_child_mut` address the same slot: a write is
    * read back through the same quarter and leaves the other three. */
  lemma SetThenGet(n: SquareNode, q: Quarter, r: Quarter, t: Tree)
    ensures GetChild(SetChild(n, q, t), r) == if r == q then t else GetChild(n, r)
  {
  }

  /** `children()` lists the slots in the order of the quarters'
    * discriminants. */
  lemma ChildrenOrder(n: SquareNode, q: Quarter)
    ensures |Children(n)| == 4 && Children(n)[Index(q)] == GetChild(n, q)
  {
  }
}
