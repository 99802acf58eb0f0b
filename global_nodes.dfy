/** The root of the quadtree: four slots, one per global quarter, so that
  * every subtree below it stays on one side of zero on both axes. */
module GlobalNodes {
  import opened Geometry
  import opened Quarters
  import opened Trees

  datatype GlobalNode = GlobalNode(children: Quad)

  /** `GlobalNode::new`: four empty slots. */
  function NewGlobalNode(): GlobalNode
  {
    GlobalNode(Vacant)
  }

  /** `Default::default`, which calls `new`. */
  function DefaultGlobalNode(): GlobalNode
  {
    NewGlobalNode()
  }

  /** `children()`: the four slots in index order. */
  function GlobalChildren(g: GlobalNode): seq<Tree>
  {
    Slots(g.children)
  }

  /** The slot index of a cell: its global quarter as `usize`. */
  function HoldingIndex(p: Point): nat
  {
    Index(GlobalQuarter(p))
  }

  /** `child_holding(point)`. */
  function ChildHolding(g: GlobalNode, p: Point): Tree
  {
    Slot(g.children, HoldingIndex(p))
  }

  /** A write through `child_holding_mut(point)`: the same slot replaced. */
  function WithChildHolding(g: GlobalNode, p: Point, t: Tree): GlobalNode
  {
    g.(children := Replace(g.children, HoldingIndex(p), t))
  }

  /** `new` and `default` both give four empty slots. */
  lemma NewGlobalNodeSpec()
    ensures DefaultGlobalNode() == NewGlobalNode()
    ensures |GlobalChildren(NewGlobalNode())| == 4
    ensures forall i :: 0 <= i < 4 ==> GlobalChildren(NewGlobalNode())[i] == Empty
  {
  }

  /** Two cells share a slot exactly when they share a global quarter. */
  lemma SharedSlot(p: Point, r: Point)
    ensures HoldingIndex(p) == HoldingIndex(r) <==> GlobalQuarter(p) == GlobalQuarter(r)
  {
  }

  /** Two cells share a slot exactly when they lie on the same side of zero
    * on both axes. */
  lemma SharedSlotSigns(p: Point, r: Point)
    ensures HoldingIndex(p) == HoldingIndex(r) <==> (p.x >= 0 <==> r.x >= 0) && (p.y >= 0 <==> r.y >= 0)
  {
    SharedSlot(p, r);
    SameQuarter(Origin, p, r);
  }

  /** `child_holding` and `child_holding_mut` address the same slot: a
    * write for `p` is read back for every cell of `p`'s quarter, and the
    * slots of the other quarters keep their trees. */
  lemma WriteThenRead(g: GlobalNode, p: Point, r: Point, t: Tree)
    ensures ChildHolding(WithChildHolding(g, p, t), r) ==
      if GlobalQuarter(r) == GlobalQuarter(p) then t else ChildHolding(g, r)
  {
    SharedSlot(p, r);
  }
}
