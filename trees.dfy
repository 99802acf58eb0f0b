/** The quadtree: a `Tree` is a cell, an owned node, or nothing, and a
  * `Node` covers an aligned square with four slots indexed by quadrant code.
  *
  * Each node is owned by exactly one slot (a `Box` in the program), so the
  * structure has no sharing: updating a slot in place is modelled as
  * building the node with that slot replaced, and the operations return the
  * updated node.
  */
module Trees {
  import opened Ints
  import opened Geometry
  import opened Quarters
  import opened Squares

  datatype Tree = Leaf(p: Point) | Branch(node: Node) | Empty

  /** The four slots `[Tree; 4]`, in index order. */
  datatype Quad = Quad(t0: Tree, t1: Tree, t2: Tree, t3: Tree)

  datatype Node = Node(area: BinarySquare, children: Quad)

  /** `children[i]`. */
  function Slot(q: Quad, i: nat): Tree
    requires i < 4
  {
    if i == 0 then q.t0 else if i == 1 then q.t1 else if i == 2 then q.t2 else q.t3
  }

  /** `children[i] = t`: slot `i` replaced, the other three unchanged. */
  function Replace(q: Quad, i: nat, t: Tree): (r: Quad)
    requires i < 4
    ensures Slot(r, i) == t
    ensures forall j :: 0 <= j < 4 && j != i ==> Slot(r, j) == Slot(q, j)
  {
    if i == 0 then q.(t0 := t) else if i == 1 then q.(t1 := t) else if i == 2 then q.(t2 := t) else q.(t3 := t)
  }

  /** `children.iter()`: the four slots in index order. */
  function Slots(q: Quad): (s: seq<Tree>)
    ensures |s| == 4 && forall i :: 0 <= i < 4 ==> s[i] == Slot(q, i)
  {
    [q.t0, q.t1, q.t2, q.t3]
  }

  const Vacant: Quad := Quad(Empty, Empty, Empty, Empty)

  /** `Node::new`: a node over `area` with four empty slots. */
  function NewNode(area: BinarySquare): Node
  {
    Node(area, Vacant)
  }

  // ---------------------------------------------------------------------
  // Contents

  /** The cells stored in a tree, with their multiplicities. */
  function Leaves(t: Tree): multiset<Point>
  {
    match t
    case Empty => multiset{}
    case Leaf(p) => multiset{p}
    case Branch(n) => NodeLeaves(n)
  }

  function NodeLeaves(n: Node): multiset<Point>
  {
    QuadLeaves(n.children)
  }

  function QuadLeaves(q: Quad): multiset<Point>
  {
    Leaves(q.t0) + Leaves(q.t1) + Leaves(q.t2) + Leaves(q.t3)
  }

  /** `t != &Tree::Empty` as a count. */
  function Occupied(t: Tree): nat
  {
    if t.Empty? then 0 else 1
  }

  /** `children_count`: the number of non-empty slots. */
  function ChildrenCount(n: Node): nat
  {
    Occupied(n.children.t0) + Occupied(n.children.t1) + Occupied(n.children.t2) + Occupied(n.children.t3)
  }

  /** The index of the first non-empty slot, or 4 when all are empty. */
  function FirstOccupied(q: Quad): (i: nat)
    ensures i <= 4
    ensures i < 4 ==> !Slot(q, i).Empty?
    ensures forall j :: 0 <= j < i && j < 4 ==> Slot(q, j).Empty?
  {
    if !q.t0.Empty? then 0 else if !q.t1.Empty? then 1 else if !q.t2.Empty? then 2 else if !q.t3.Empty? then 3 else 4
  }

  /** `extract_child`, as a value: the first non-empty slot's tree and the
    * node with that slot emptied, or `Empty` and the node unchanged. */
  function ExtractChild(n: Node): (Tree, Node)
  {
    var i := FirstOccupied(n.children);
    if i < 4 then (Slot(n.children, i), n.(children := Replace(n.children, i, Empty))) else (Empty, n)
  }

  /** `extract_child` as the program runs it: a scan over the slots that
    * takes the first non-empty one. */
  method TakeFirstChild(n: Node) returns (t: Tree, r: Node)
    ensures (t, r) == ExtractChild(n)
  {
    var i := 0;
    while i < 4
      invariant 0 <= i <= 4
      invariant forall j :: 0 <= j < i ==> Slot(n.children, j).Empty?
    {
      if !Slot(n.children, i).Empty? {
        assert FirstOccupied(n.children) == i;
        t, r := Slot(n.children, i), n.(children := Replace(n.children, i, Empty));
        return;
      }
      i := i + 1;
    }
    t, r := Empty, n;
  }

  // ---------------------------------------------------------------------
  // Lemmas on slots and contents

  lemma ReplaceLeaves(q: Quad, i: nat, t: Tree)
    requires i < 4
    ensures QuadLeaves(Replace(q, i, t)) + Leaves(Slot(q, i)) == QuadLeaves(q) + Leaves(t)
  {
    var a, b, c, d, e := Leaves(q.t0), Leaves(q.t1), Leaves(q.t2), Leaves(q.t3), Leaves(t);
    assert QuadLeaves(q) == a + b + c + d;
    if i == 0 {
      assert QuadLeaves(Replace(q, i, t)) == e + b + c + d;
      assert e + b + c + d + a == a + b + c + d + e;
    } else if i == 1 {
      assert QuadLeaves(Replace(q, i, t)) == a + e + c + d;
      assert a + e + c + d + b == a + b + c + d + e;
    } else if i == 2 {
      assert QuadLeaves(Replace(q, i, t)) == a + b + e + d;
      assert a + b + e + d + c == a + b + c + d + e;
    } else {
      assert QuadLeaves(Replace(q, i, t)) == a + b + c + e;
      assert a + b + c + e + d == a + b + c + d + e;
    }
  }

  /** Replacing a slot by a tree holding the same cells and `extra` adds
    * `extra` to the node. */
  lemma GrowSlot(n: Node, i: nat, t: Tree, extra: multiset<Point>)
    requires i < 4 && Leaves(t) == Leaves(Slot(n.children, i)) + extra
    ensures NodeLeaves(n.(children := Replace(n.children, i, t))) == NodeLeaves(n) + extra
  {
    var r := n.(children := Replace(n.children, i, t));
    ReplaceLeaves(n.children, i, t);
    forall p
      ensures NodeLeaves(r)[p] == (NodeLeaves(n) + extra)[p]
    {
      assert (NodeLeaves(r) + Leaves(Slot(n.children, i)))[p] == (NodeLeaves(n) + Leaves(t))[p];
    }
  }

  lemma SlotLeaves(q: Quad, i: nat)
    requires i < 4
    ensures Leaves(Slot(q, i)) <= QuadLeaves(q)
  {
    var a, b, c, d := Leaves(q.t0), Leaves(q.t1), Leaves(q.t2), Leaves(q.t3);
    assert QuadLeaves(q) == a + b + c + d;
    if i == 0 {
      assert a <= a + b + c + d;
    } else if i == 1 {
      assert b <= a + b + c + d;
    } else if i == 2 {
      assert c <= a + b + c + d;
    } else {
      assert d <= a + b + c + d;
    }
  }

  /** A cell stored in a node is stored in one of its slots. */
  lemma LeavesInSlots(q: Quad, p: Point) returns (i: nat)
    requires p in QuadLeaves(q)
    ensures i < 4 && p in Leaves(Slot(q, i))
  {
    assert QuadLeaves(q)[p] == Leaves(q.t0)[p] + Leaves(q.t1)[p] + Leaves(q.t2)[p] + Leaves(q.t3)[p];
    if p in Leaves(q.t0) {
      i := 0;
    } else if p in Leaves(q.t1) {
      i := 1;
    } else if p in Leaves(q.t2) {
      i := 2;
    } else {
      i := 3;
    }
  }

  /** The node left by `extract_child` and the tree it returns together hold
    * the original cells; with one occupied slot, that slot is returned and
    * the node is left empty. */
  lemma ExtractChildSpec(n: Node)
    ensures ExtractChild(n).1.area == n.area
    ensures Leaves(ExtractChild(n).0) + NodeLeaves(ExtractChild(n).1) == NodeLeaves(n)
    ensures ChildrenCount(n) == 0 ==> ExtractChild(n) == (Empty, n)
    ensures ChildrenCount(n) == 1 ==> !ExtractChild(n).0.Empty? && ChildrenCount(ExtractChild(n).1) == 0
    ensures ChildrenCount(n) == 1 ==> exists i :: 0 <= i < 4 && ExtractChild(n).0 == Slot(n.children, i)
  {
    var i := FirstOccupied(n.children);
    if i < 4 {
      ReplaceLeaves(n.children, i, Empty);
      assert Leaves(Slot(n.children, i)) + NodeLeaves(ExtractChild(n).1) == NodeLeaves(n);
    }
  }

  /** A new node is empty. */
  lemma NewNodeSpec(area: BinarySquare)
    ensures NodeLeaves(NewNode(area)) == multiset{} && ChildrenCount(NewNode(area)) == 0
    ensures forall i :: 0 <= i < 4 ==> Slot(NewNode(area).children, i) == Empty
  {
  }

  // ---------------------------------------------------------------------
  // The node invariant

  /** A square a node may cover: aligned, of side at least 2 and at most
    * `2^30`, inside the i32 grid. */
  predicate NodeArea(sq: BinarySquare)
  {
    Aligned(sq) && 2 <= sq.size <= MAX_SIDE && InGrid(sq)
  }

  /** What slot `i` of a node over `area` may hold: a cell of quadrant `i`,
    * or a valid node inside quadrant `i` with at least two occupied slots
    * (`remove` collapses nodes with fewer). */
  predicate ValidSlot(area: BinarySquare, i: nat, t: Tree)
    requires NodeArea(area) && i < 4
    decreases t, 0
  {
    match t
    case Empty => true
    case Leaf(p) => Contains(Quadrant(area, i), p)
    case Branch(c) => Encloses(Quadrant(area, i), c.area) && ValidNode(c) && ChildrenCount(c) >= 2
  }

  predicate ValidNode(n: Node)
    decreases n, 1
  {
    NodeArea(n.area) &&
    ValidSlot(n.area, 0, n.children.t0) && ValidSlot(n.area, 1, n.children.t1) &&
    ValidSlot(n.area, 2, n.children.t2) && ValidSlot(n.area, 3, n.children.t3)
  }

  lemma SlotValid(n: Node, i: nat)
    requires ValidNode(n) && i < 4
    ensures ValidSlot(n.area, i, Slot(n.children, i))
  {
  }

  /** Replacing one slot by a tree that fits it keeps the node valid. */
  lemma ReplaceValid(n: Node, i: nat, t: Tree)
    requires ValidNode(n) && i < 4 && ValidSlot(n.area, i, t)
    ensures ValidNode(n.(children := Replace(n.children, i, t)))
  {
  }

  /** Every cell stored in a valid node lies in its square. */
  lemma {:induction false} LeavesInside(n: Node, p: Point)
    requires ValidNode(n) && p in NodeLeaves(n)
    ensures Contains(n.area, p)
    decreases n, 1
  {
    var i := LeavesInSlots(n.children, p);
    SlotInside(n, i, p);
    QuadrantSpec(n.area, i);
  }

  /** Every cell stored in slot `i` lies in quadrant `i`. */
  lemma {:induction false} SlotInside(n: Node, i: nat, p: Point)
    requires ValidNode(n) && i < 4 && p in Leaves(Slot(n.children, i))
    ensures Contains(Quadrant(n.area, i), p)
    decreases n, 0
  {
    SlotValid(n, i);
    match Slot(n.children, i)
    case Leaf(q) =>
    case Branch(c) =>
      LeavesInside(c, p);
  }

  /** A cell stored in slot `j` has quadrant code `j`. */
  lemma OnlyItsSlot(n: Node, j: nat, p: Point)
    requires ValidNode(n) && j < 4 && p in Leaves(Slot(n.children, j))
    ensures SquareQuarter(n.area, p) == j
  {
    SlotInside(n, j, p);
    QuadrantSpec(n.area, j);
    QuarterCodeSpec(n.area, p, j);
  }

  /** A valid node stores a cell only in the slot for its quadrant code. */
  lemma StoredInItsSlot(n: Node, p: Point)
    requires ValidNode(n)
    ensures p in NodeLeaves(n) <==> p in Leaves(Slot(n.children, SquareQuarter(n.area, p)))
  {
    SlotLeaves(n.children, SquareQuarter(n.area, p));
    if p in NodeLeaves(n) {
      var j := LeavesInSlots(n.children, p);
      OnlyItsSlot(n, j, p);
    }
  }

  /** A valid node stores each cell at most once. */
  lemma {:induction false} LeavesDistinct(n: Node, p: Point)
    requires ValidNode(n)
    ensures NodeLeaves(n)[p] <= 1
    decreases n
  {
    var idx := SquareQuarter(n.area, p);
    forall j | 0 <= j < 4 && j != idx
      ensures Leaves(Slot(n.children, j))[p] == 0
    {
      if p in Leaves(Slot(n.children, j)) {
        OnlyItsSlot(n, j, p);
      }
    }
    var q := n.children;
    assert NodeLeaves(n)[p] == Leaves(q.t0)[p] + Leaves(q.t1)[p] + Leaves(q.t2)[p] + Leaves(q.t3)[p];
    assert Slot(q, 0) == q.t0 && Slot(q, 1) == q.t1 && Slot(q, 2) == q.t2 && Slot(q, 3) == q.t3;
    assert NodeLeaves(n)[p] == Leaves(Slot(q, idx))[p];
    SlotValid(n, idx);
    match Slot(q, idx)
    case Empty =>
    case Leaf(r) =>
    case Branch(c) =>
      LeavesDistinct(c, p);
  }

  // ---------------------------------------------------------------------
  // has

  /** `has`: looks only at the slot for the cell's quadrant code. */
  function Has(n: Node, p: Point): bool
  {
    match Slot(n.children, SquareQuarter(n.area, p))
    case Empty => false
    case Leaf(pt) => p == pt
    case Branch(c) => HoldsPoint(c.area, p) && Has(c, p)
  }

  /** A cell in a valid node lies on the anchor's side of zero, so `holds`
    * decides membership exactly. */
  lemma StoredHeld(c: Node, p: Point)
    requires ValidNode(c) && p in NodeLeaves(c)
    ensures HoldsPoint(c.area, p)
  {
    LeavesInside(c, p);
    AlignedSides(c.area, p);
    HoldsExact(c.area, p);
  }

  /** In a valid node, `has` answers exactly whether the cell is stored. */
  lemma {:induction false} HasSpec(n: Node, p: Point)
    requires ValidNode(n)
    ensures Has(n, p) <==> p in NodeLeaves(n)
    decreases n
  {
    var idx := SquareQuarter(n.area, p);
    StoredInItsSlot(n, p);
    SlotValid(n, idx);
    match Slot(n.children, idx)
    case Empty =>
    case Leaf(q) =>
    case Branch(c) =>
      HasSpec(c, p);
      if p in NodeLeaves(c) {
        StoredHeld(c, p);
      }
  }

  // ---------------------------------------------------------------------
  // insert

  /** The square an occupied slot covers: the unit square of a cell, or the
    * area of a node. */
  function Extent(t: Tree): BinarySquare
    requires !t.Empty?
  {
    match t
    case Leaf(p) => Wrapping(p)
    case Branch(c) => c.area
  }

  /** What `insert` needs of its arguments: `at` lies in the node, and
    * either the element is the cell `at.anchor` at its unit square and is
    * not stored yet (the program has no duplicate check, and a stored cell
    * would make it recurse forever), or the slot for `at` is empty and the
    * element fits that slot, as when a fresh node receives its first
    * subtrees. */
  predicate InsertPre(n: Node, element: Tree, at: BinarySquare)
  {
    ValidNode(n) && Contains(n.area, at.anchor) &&
    ((element == Leaf(at.anchor) && at == Wrapping(at.anchor) && !Has(n, at.anchor)) ||
     (Slot(n.children, SquareQuarter(n.area, at.anchor)).Empty? && !element.Empty? &&
      ValidSlot(n.area, SquareQuarter(n.area, at.anchor), element)))
  }

  /** `insert`: an empty slot takes the element; a leaf, or a node that
    * does not hold `at`, is moved with the element into a new node at
    * their `common` square; a node that holds `at` receives the element.
    * The node stays valid, gains exactly the element's cells, and only the
    * slot for `at` changes, to an occupied one. */
  function Insert(n: Node, element: Tree, at: BinarySquare): (r: Node)
    requires InsertPre(n, element, at)
    ensures ValidNode(r) && r.area == n.area
    ensures NodeLeaves(r) == NodeLeaves(n) + Leaves(element)
    ensures !Slot(r.children, SquareQuarter(n.area, at.anchor)).Empty?
    ensures forall j :: 0 <= j < 4 && j != SquareQuarter(n.area, at.anchor) ==> Slot(r.children, j) == Slot(n.children, j)
    decreases n.area.size
  {
    var idx := SquareQuarter(n.area, at.anchor);
    match Slot(n.children, idx)
    case Empty =>
      FillSlot(n, idx, element, at);
      n.(children := Replace(n.children, idx, element))
    case Leaf(pt) =>
      FreshNode(n, at.anchor, idx, Wrapping(pt));
      var area := Common(Wrapping(pt), at).value;
      StartNode(area, Leaf(pt), Wrapping(pt));
      var node := Insert(NewNode(area), Leaf(pt), Wrapping(pt));
      SecondInsert(node, SquareQuarter(area, pt), at.anchor);
      var node' := Insert(node, element, at);
      Joined(n, idx, node, node', pt, at.anchor, element);
      n.(children := Replace(n.children, idx, Branch(node')))
    case Branch(child) =>
      SlotNode(n, at.anchor, idx, child);
      if HoldsSquare(child.area, at) then
        var child' := Insert(child, element, at);
        Descended(n, idx, child, child', element, at);
        n.(children := Replace(n.children, idx, Branch(child')))
      else
        FreshNode(n, at.anchor, idx, child.area);
        var area := Common(child.area, at).value;
        StartNode(area, Branch(child), child.area);
        var node := Insert(NewNode(area), Branch(child), child.area);
        SecondInsert(node, SquareQuarter(area, child.area.anchor), at.anchor);
        var node' := Insert(node, element, at);
        Joined(n, idx, node, node', child.area.anchor, at.anchor, element);
        n.(children := Replace(n.children, idx, Branch(node')))
  }

  /** An empty slot takes the element. */
  lemma FillSlot(n: Node, idx: nat, element: Tree, at: BinarySquare)
    requires InsertPre(n, element, at) && idx == SquareQuarter(n.area, at.anchor) && Slot(n.children, idx).Empty?
    ensures ValidNode(n.(children := Replace(n.children, idx, element)))
    ensures NodeLeaves(n.(children := Replace(n.children, idx, element))) == NodeLeaves(n) + Leaves(element)
    ensures !element.Empty?
  {
    QuarterCodeSpec(n.area, at.anchor, idx);
    ReplaceValid(n, idx, element);
    GrowSlot(n, idx, element, Leaves(element));
  }

  /** A fresh node accepts its first subtree. */
  lemma StartNode(area: BinarySquare, t: Tree, at: BinarySquare)
    requires NodeArea(area) && Contains(area, at.anchor) && !t.Empty?
    requires ValidSlot(area, SquareQuarter(area, at.anchor), t)
    ensures InsertPre(NewNode(area), t, at) && area.size == NewNode(area).area.size
  {
  }

  /** A node that is empty but for slot `k` accepts a cell of another slot. */
  lemma SecondInsert(node: Node, k: nat, p: Point)
    requires ValidNode(node) && Contains(node.area, p) && k < 4 && SquareQuarter(node.area, p) != k
    requires forall j :: 0 <= j < 4 && j != k ==> Slot(node.children, j) == Slot(Vacant, j)
    ensures InsertPre(node, Leaf(p), Wrapping(p))
  {
  }

  /** Inserting into a node that holds `at`: the node gains the element and
    * the slot stays valid. */
  lemma Descended(n: Node, idx: nat, child: Node, child': Node, element: Tree, at: BinarySquare)
    requires ValidNode(n) && idx < 4 && Slot(n.children, idx) == Branch(child)
    requires ValidNode(child) && ChildrenCount(child) >= 2 && Encloses(Quadrant(n.area, idx), child.area)
    requires ValidNode(child') && child'.area == child.area
    requires NodeLeaves(child') == NodeLeaves(child) + Leaves(element)
    requires !Slot(child'.children, SquareQuarter(child.area, at.anchor)).Empty?
    requires forall j :: 0 <= j < 4 && j != SquareQuarter(child.area, at.anchor) ==> Slot(child'.children, j) == Slot(child.children, j)
    ensures ValidNode(n.(children := Replace(n.children, idx, Branch(child'))))
    ensures NodeLeaves(n.(children := Replace(n.children, idx, Branch(child')))) == NodeLeaves(n) + Leaves(element)
  {
    CountKept(child, child', SquareQuarter(child.area, at.anchor));
    ReplaceValid(n, idx, Branch(child'));
    GrowSlot(n, idx, Branch(child'), Leaves(element));
  }

  /** A node in slot `idx` of a valid node: valid, inside quadrant `idx`,
    * smaller, and `holds` decides membership for a cell of the quadrant. */
  lemma SlotNode(n: Node, p: Point, idx: nat, child: Node)
    requires ValidNode(n) && Contains(n.area, p) && idx == SquareQuarter(n.area, p)
    requires Slot(n.children, idx) == Branch(child)
    ensures ValidNode(child) && ChildrenCount(child) >= 2
    ensures Encloses(Quadrant(n.area, idx), child.area) && child.area.size < n.area.size
    ensures HoldsPoint(child.area, p) <==> Contains(child.area, p)
  {
    SlotValid(n, idx);
    var q := Quadrant(n.area, idx);
    QuadrantSpec(n.area, idx);
    QuarterCodeSpec(n.area, p, idx);
    AlignedSides(q, p);
    AlignedSides(q, child.area.anchor);
    HoldsExact(child.area, p);
  }

  /** A node occupied at slot `i` and slot `j`, with `i != j`, has at least
    * two children. */
  lemma TwoOccupied(m: Node, i: nat, j: nat)
    requires i < 4 && j < 4 && i != j
    requires !Slot(m.children, i).Empty? && !Slot(m.children, j).Empty?
    ensures ChildrenCount(m) >= 2
  {
  }

  /** Filling slot `i` and keeping the others does not lower the count. */
  lemma CountKept(a: Node, b: Node, i: nat)
    requires i < 4 && !Slot(b.children, i).Empty?
    requires forall j :: 0 <= j < 4 && j != i ==> Slot(b.children, j) == Slot(a.children, j)
    ensures ChildrenCount(b) >= ChildrenCount(a)
  {
    assert forall j :: 0 <= j < 4 ==> Occupied(Slot(b.children, j)) >= Occupied(Slot(a.children, j));
    assert Slot(a.children, 0) == a.children.t0 && Slot(b.children, 0) == b.children.t0;
    assert Slot(a.children, 1) == a.children.t1 && Slot(b.children, 1) == b.children.t1;
    assert Slot(a.children, 2) == a.children.t2 && Slot(b.children, 2) == b.children.t2;
    assert Slot(a.children, 3) == a.children.t3 && Slot(b.children, 3) == b.children.t3;
  }

  /** The new node built for a slot whose occupant, of extent `a`, does not
    * cover `p`: `common` succeeds, the square lies in the slot's quadrant,
    * is smaller than the node, and puts the occupant and `p` into different
    * slots, the occupant fitting its own. */
  lemma FreshNode(n: Node, p: Point, idx: nat, a: BinarySquare)
    requires ValidNode(n) && Contains(n.area, p) && idx == SquareQuarter(n.area, p)
    requires !Slot(n.children, idx).Empty? && a == Extent(Slot(n.children, idx)) && !Contains(a, p)
    ensures Common(a, Wrapping(p)).Ok?
    ensures NodeArea(Common(a, Wrapping(p)).value)
    ensures Encloses(Quadrant(n.area, idx), Common(a, Wrapping(p)).value)
    ensures Common(a, Wrapping(p)).value.size < n.area.size
    ensures Contains(Common(a, Wrapping(p)).value, p) && Contains(Common(a, Wrapping(p)).value, a.anchor)
    ensures SquareQuarter(Common(a, Wrapping(p)).value, a.anchor) != SquareQuarter(Common(a, Wrapping(p)).value, p)
    ensures ValidSlot(Common(a, Wrapping(p)).value, SquareQuarter(Common(a, Wrapping(p)).value, a.anchor), Slot(n.children, idx))
  {
    FreshQuadrant(n, p, idx, a);
    FreshCommon(a, p, Quadrant(n.area, idx));
    FreshSlot(n, idx, a, Common(a, Wrapping(p)).value);
  }

  /** The `common` square of an aligned square `a` and a cell `p` outside
    * it, both inside an aligned square `q` at least twice as wide as `a`:
    * a square a node may cover, inside `q`, holding both, with `a` and `p`
    * in different slots. */
  lemma FreshCommon(a: BinarySquare, p: Point, q: BinarySquare)
    requires Aligned(q) && q.size <= MAX_SIDE && InGrid(q) && Contains(q, p)
    requires Aligned(a) && a.size >= 1 && Encloses(q, a) && 2 * a.size <= q.size && !Contains(a, p)
    ensures Common(a, Wrapping(p)).Ok?
    ensures NodeArea(Common(a, Wrapping(p)).value) && Encloses(q, Common(a, Wrapping(p)).value)
    ensures Encloses(Common(a, Wrapping(p)).value, a) && 2 * a.size <= Common(a, Wrapping(p)).value.size
    ensures Contains(Common(a, Wrapping(p)).value, p) && Contains(Common(a, Wrapping(p)).value, a.anchor)
    ensures SquareQuarter(Common(a, Wrapping(p)).value, a.anchor) != SquareQuarter(Common(a, Wrapping(p)).value, p)
  {
    var b := Wrapping(p);
    WrappingSpec(p, p);
    assert Encloses(q, b) && !Encloses(a, b) && !Encloses(b, a) && 2 * Max(a.size, b.size) <= q.size;
    CommonSeparates(a, b, q);
  }

  /** The quadrant of the slot for `p`, whose occupant of extent `a` misses
    * `p`: an aligned square of the grid inside the node holding `p` and at
    * least twice as wide as the occupant. */
  lemma FreshQuadrant(n: Node, p: Point, idx: nat, a: BinarySquare)
    requires ValidNode(n) && Contains(n.area, p) && idx == SquareQuarter(n.area, p)
    requires !Slot(n.children, idx).Empty? && a == Extent(Slot(n.children, idx)) && !Contains(a, p)
    ensures Aligned(Quadrant(n.area, idx)) && Quadrant(n.area, idx).size <= MAX_SIDE && InGrid(Quadrant(n.area, idx))
    ensures Quadrant(n.area, idx).size < n.area.size && Contains(Quadrant(n.area, idx), p)
    ensures Aligned(a) && a.size >= 1 && Encloses(Quadrant(n.area, idx), a) && 2 * a.size <= Quadrant(n.area, idx).size
  {
    var q := Quadrant(n.area, idx);
    QuadrantSpec(n.area, idx);
    QuarterCodeSpec(n.area, p, idx);
    SlotValid(n, idx);
    match Slot(n.children, idx) {
      case Leaf(pt) => WrappingSpec(pt, pt);
      case Branch(child) =>
    }
    Room(a, q, p);
  }

  /** The occupant of slot `idx`, of extent `a`, fits the slot of the new
    * node `c` that its anchor selects. */
  lemma FreshSlot(n: Node, idx: nat, a: BinarySquare, c: BinarySquare)
    requires ValidNode(n) && idx < 4 && !Slot(n.children, idx).Empty? && a == Extent(Slot(n.children, idx))
    requires NodeArea(c) && Aligned(a) && a.size >= 1 && Encloses(c, a) && 2 * a.size <= c.size
    ensures ValidSlot(c, SquareQuarter(c, a.anchor), Slot(n.children, idx))
  {
    var k := SquareQuarter(c, a.anchor);
    QuarterCodeSpec(c, a.anchor, k);
    QuadrantSpec(c, k);
    NestedAligned(a, Quadrant(c, k), a.anchor);
    SlotValid(n, idx);
  }

  /** An aligned square inside an aligned square `q`, missing a cell of
    * `q`, is at most half as wide as `q`. */
  lemma Room(a: BinarySquare, q: BinarySquare, p: Point)
    requires Aligned(a) && Aligned(q) && a.size >= 1 && Encloses(q, a) && Contains(q, p) && !Contains(a, p)
    ensures 2 * a.size <= q.size
  {
    if 2 * a.size > q.size {
      Pow2Between(q.size, a.size);
    }
  }

  /** `common` of two aligned squares neither of which encloses the other
    * puts them into different quadrants of its result. */
  lemma CommonSeparates(a: BinarySquare, b: BinarySquare, q: BinarySquare)
    requires Aligned(a) && Aligned(b) && Aligned(q) && q.size <= MAX_SIDE && InGrid(q)
    requires a.size >= 1 && b.size >= 1 && Encloses(q, a) && Encloses(q, b) && 2 * Max(a.size, b.size) <= q.size
    requires !Encloses(a, b) && !Encloses(b, a)
    ensures Common(a, b).Ok?
    ensures Aligned(Common(a, b).value) && Encloses(q, Common(a, b).value)
    ensures Encloses(Common(a, b).value, a) && Encloses(Common(a, b).value, b)
    ensures 2 * Max(a.size, b.size) <= Common(a, b).value.size
    ensures SquareQuarter(Common(a, b).value, a.anchor) != SquareQuarter(Common(a, b).value, b.anchor)
  {
    CommonEncloses(a, b, q);
    var c := Common(a, b).value;
    var i := SquareQuarter(c, a.anchor);
    if SquareQuarter(c, b.anchor) == i {
      QuarterCodeSpec(c, a.anchor, i);
      QuarterCodeSpec(c, b.anchor, i);
      SameQuadrant(a, b, i);
    }
  }

  /** When both anchors fall into one quadrant of their `common` square, one
    * square encloses the other: otherwise that quadrant, half as wide,
    * would have been found first. */
  lemma SameQuadrant(a: BinarySquare, b: BinarySquare, i: nat)
    requires Aligned(a) && Aligned(b) && a.size >= 1 && b.size >= 1 && i < 4
    requires Common(a, b).Ok? && NodeArea(Common(a, b).value)
    requires 2 * Max(a.size, b.size) <= Common(a, b).value.size
    requires Contains(Quadrant(Common(a, b).value, i), a.anchor) && Contains(Quadrant(Common(a, b).value, i), b.anchor)
    ensures Encloses(a, b) || Encloses(b, a)
  {
    var c := Common(a, b).value;
    QuadrantSpec(c, i);
    var h := Quadrant(c, i);
    InsideHalf(a, b, h);
    if 2 * Max(a.size, b.size) <= h.size {
      CommonSmallest(a, b, h);
    }
  }
  /** Two aligned squares whose anchors lie in an aligned square at least as
    * wide as both lie inside it; either it is twice as wide as the larger,
    * or the larger is that square and encloses the other. */
  lemma InsideHalf(a: BinarySquare, b: BinarySquare, h: BinarySquare)
    requires Aligned(a) && Aligned(b) && Aligned(h) && a.size >= 1 && b.size >= 1
    requires Max(a.size, b.size) <= h.size && Contains(h, a.anchor) && Contains(h, b.anchor)
    ensures Encloses(h, a) && Encloses(h, b)
    ensures 2 * Max(a.size, b.size) <= h.size || Encloses(a, b) || Encloses(b, a)
  {
    NestedAligned(a, h, a.anchor);
    NestedAligned(b, h, b.anchor);
    if h.size < 2 * Max(a.size, b.size) {
      if b.size <= a.size {
        Pow2Between(h.size, a.size);
      } else {
        Pow2Between(h.size, b.size);
      }
    }
  }


  /** The slot `idx` replaced by the node built from a fresh node by two
    * inserts, of its occupant at `u` and of the element at `v`: the node
    * stays valid and gains the element's cells. */
  lemma Joined(n: Node, idx: nat, node: Node, node': Node, u: Point, v: Point, element: Tree)
    requires ValidNode(n) && idx < 4 && ValidNode(node') && node'.area == node.area
    requires Encloses(Quadrant(n.area, idx), node.area)
    requires SquareQuarter(node.area, u) != SquareQuarter(node.area, v)
    requires !Slot(node.children, SquareQuarter(node.area, u)).Empty? && !Slot(node'.children, SquareQuarter(node.area, v)).Empty?
    requires forall j :: 0 <= j < 4 && j != SquareQuarter(node.area, v) ==> Slot(node'.children, j) == Slot(node.children, j)
    requires NodeLeaves(node') == NodeLeaves(node) + Leaves(element)
    requires NodeLeaves(node) == NodeLeaves(NewNode(node.area)) + Leaves(Slot(n.children, idx))
    ensures ValidNode(n.(children := Replace(n.children, idx, Branch(node'))))
    ensures NodeLeaves(n.(children := Replace(n.children, idx, Branch(node')))) == NodeLeaves(n) + Leaves(element)
  {
    JoinedSlot(n.area, idx, node, node', SquareQuarter(node.area, u), SquareQuarter(node.area, v));
    ReplaceValid(n, idx, Branch(node'));
    JoinedLeaves(node, node', Slot(n.children, idx), element);
    GrowSlot(n, idx, Branch(node'), Leaves(element));
  }
  /** The joined node fits the slot it replaces. */
  lemma JoinedSlot(area: BinarySquare, idx: nat, node: Node, node': Node, i: nat, j: nat)
    requires NodeArea(area) && idx < 4 && ValidNode(node') && node'.area == node.area
    requires Encloses(Quadrant(area, idx), node.area) && i < 4 && j < 4 && i != j
    requires !Slot(node.children, i).Empty? && !Slot(node'.children, j).Empty?
    requires forall k :: 0 <= k < 4 && k != j ==> Slot(node'.children, k) == Slot(node.children, k)
    ensures ValidSlot(area, idx, Branch(node'))
  {
    assert Slot(node'.children, i) == Slot(node.children, i);
    TwoOccupied(node', i, j);
  }
  /** The joined node holds the occupant and the element. */
  lemma JoinedLeaves(node: Node, node': Node, occupant: Tree, element: Tree)
    requires NodeLeaves(node') == NodeLeaves(node) + Leaves(element)
    requires NodeLeaves(node) == NodeLeaves(NewNode(node.area)) + Leaves(occupant)
    ensures Leaves(Branch(node')) == Leaves(occupant) + Leaves(element)
  {
    NewNodeSpec(node.area);
  }



  // ---------------------------------------------------------------------
  // remove

  /** `remove`: a leaf slot holding the cell is emptied; a node slot that
    * holds the cell has it removed, and is then emptied when the node is
    * left with no child, or takes the node's only child when one is left.
    * The node stays valid and loses exactly one copy of the cell. */
  function Remove(n: Node, p: Point): (r: Node)
    requires ValidNode(n)
    ensures ValidNode(r) && r.area == n.area
    ensures NodeLeaves(r) == NodeLeaves(n) - multiset{p}
    decreases n
  {
    var idx := SquareQuarter(n.area, p);
    match Slot(n.children, idx)
    case Empty =>
      Untouched(n, p);
      n
    case Leaf(pt) =>
      if pt == p then
        DropFromSlot(n, idx, Empty, p);
        n.(children := Replace(n.children, idx, Empty))
      else
        Untouched(n, p);
        n
    case Branch(child) =>
      SlotValid(n, idx);
      if HoldsPoint(child.area, p) then
        var child' := Remove(child, p);
        var count := ChildrenCount(child');
        if count == 0 then
          NoChildNoLeaves(child');
          DropFromSlot(n, idx, Empty, p);
          n.(children := Replace(n.children, idx, Empty))
        else if count == 1 then
          Collapse(n, idx, child');
          DropFromSlot(n, idx, ExtractChild(child').0, p);
          n.(children := Replace(n.children, idx, ExtractChild(child').0))
        else
          ReplaceValid(n, idx, Branch(child'));
          DropFromSlot(n, idx, Branch(child'), p);
          n.(children := Replace(n.children, idx, Branch(child')))
      else
        NotHeldAbsent(child, p);
        Untouched(n, p);
        n
  }

  /** A valid node whose square does not hold a cell does not store it. */
  lemma NotHeldAbsent(c: Node, p: Point)
    requires ValidNode(c) && !HoldsPoint(c.area, p)
    ensures p !in NodeLeaves(c)
  {
    if p in NodeLeaves(c) {
      StoredHeld(c, p);
    }
  }

  /** A node with no occupied slot stores nothing. */
  lemma NoChildNoLeaves(n: Node)
    requires ChildrenCount(n) == 0
    ensures NodeLeaves(n) == multiset{}
  {
  }

  /** Removing a cell the slot for its code does not hold changes nothing. */
  lemma Untouched(n: Node, p: Point)
    requires ValidNode(n) && p !in Leaves(Slot(n.children, SquareQuarter(n.area, p)))
    ensures NodeLeaves(n) - multiset{p} == NodeLeaves(n)
  {
    StoredInItsSlot(n, p);
    assert NodeLeaves(n)[p] == 0;
  }

  /** Replacing the slot for `p`'s code by a tree with one copy of `p`
    * fewer removes one copy of `p` from the node. */
  lemma DropFromSlot(n: Node, i: nat, t: Tree, p: Point)
    requires ValidNode(n) && i == SquareQuarter(n.area, p)
    requires Leaves(t) == Leaves(Slot(n.children, i)) - multiset{p}
    ensures NodeLeaves(n.(children := Replace(n.children, i, t))) == NodeLeaves(n) - multiset{p}
  {
    var r := n.(children := Replace(n.children, i, t));
    ReplaceLeaves(n.children, i, t);
    forall j | 0 <= j < 4 && j != i
      ensures p !in Leaves(Slot(n.children, j))
    {
      if p in Leaves(Slot(n.children, j)) {
        OnlyItsSlot(n, j, p);
      }
    }
    var q := n.children;
    assert NodeLeaves(n)[p] == Leaves(Slot(q, i))[p] by {
      assert Slot(q, 0) == q.t0 && Slot(q, 1) == q.t1 && Slot(q, 2) == q.t2 && Slot(q, 3) == q.t3;
    }
    MinusOne(NodeLeaves(r), NodeLeaves(n), Leaves(Slot(q, i)), Leaves(t), p);
  }

  /** Multiset arithmetic behind `DropFromSlot`. */
  lemma MinusOne(r: multiset<Point>, n: multiset<Point>, s: multiset<Point>, t: multiset<Point>, p: Point)
    requires r + s == n + t && t == s - multiset{p} && n[p] == s[p]
    ensures r == n - multiset{p}
  {
    forall x
      ensures r[x] == (n - multiset{p})[x]
    {
      assert (r + s)[x] == (n + t)[x];
      if x == p {
        assert t[x] == if s[x] == 0 then 0 else s[x] - 1;
      } else {
        assert t[x] == s[x];
      }
    }
  }

  /** A slot whose node is left with one child takes that child, which
    * fits the slot and holds all of the node's cells. */
  lemma Collapse(n: Node, idx: nat, c: Node)
    requires ValidNode(n) && idx < 4 && ValidNode(c) && Encloses(Quadrant(n.area, idx), c.area)
    requires ChildrenCount(c) == 1
    ensures ValidNode(n.(children := Replace(n.children, idx, ExtractChild(c).0)))
    ensures Leaves(ExtractChild(c).0) == NodeLeaves(c)
  {
    ExtractChildSpec(c);
    NoChildNoLeaves(ExtractChild(c).1);
    var j :| 0 <= j < 4 && ExtractChild(c).0 == Slot(c.children, j);
    SlotValid(c, j);
    QuadrantSpec(c.area, j);
    ReplaceValid(n, idx, ExtractChild(c).0);
  }

  // ---------------------------------------------------------------------
  // Properties of has, insert and remove together

  /** After inserting a cell, `has` answers true for it and as before for
    * every other cell. */
  lemma InsertHas(n: Node, p: Point, q: Point)
    requires ValidNode(n) && Contains(n.area, p) && !Has(n, p)
    ensures Has(Insert(n, Leaf(p), Wrapping(p)), q) <==> Has(n, q) || q == p
  {
    HasSpec(n, q);
    HasSpec(Insert(n, Leaf(p), Wrapping(p)), q);
  }

  /** After removing a cell, `has` answers false for it and as before for
    * every other cell. */
  lemma RemoveHas(n: Node, p: Point, q: Point)
    requires ValidNode(n)
    ensures Has(Remove(n, p), q) <==> Has(n, q) && q != p
  {
    HasSpec(n, q);
    HasSpec(Remove(n, p), q);
    LeavesDistinct(n, p);
  }

  lemma ReplaceTwice(q: Quad, i: nat, x: Tree, y: Tree)
    requires i < 4
    ensures Replace(Replace(q, i, x), i, y) == Replace(q, i, y)
    ensures Replace(q, i, Slot(q, i)) == q
  {
  }

  /** `insert` into an empty slot stores the element there. */
  lemma InsertIntoEmpty(n: Node, element: Tree, at: BinarySquare)
    requires InsertPre(n, element, at) && Slot(n.children, SquareQuarter(n.area, at.anchor)).Empty?
    ensures Insert(n, element, at) == n.(children := Replace(n.children, SquareQuarter(n.area, at.anchor), element))
  {
  }

  /** A fresh node given one subtree has exactly that child. */
  lemma SingleChild(area: BinarySquare, k: nat, t: Tree)
    requires k < 4 && !t.Empty?
    ensures ChildrenCount(Node(area, Replace(Vacant, k, t))) == 1
    ensures ExtractChild(Node(area, Replace(Vacant, k, t))).0 == t
  {
  }

  /** Removing `p` from the slot that took a new node holding the old
    * occupant in slot `k` and the leaf `p` gives the occupant back its slot. */
  lemma UndoJoin(n: Node, idx: nat, node': Node, k: nat, p: Point)
    requires ValidNode(n) && idx == SquareQuarter(n.area, p)
    requires ValidNode(n.(children := Replace(n.children, idx, Branch(node'))))
    requires k < 4 && k != SquareQuarter(node'.area, p) && HoldsPoint(node'.area, p) && !Slot(n.children, idx).Empty?
    requires node'.children == Replace(Replace(Vacant, k, Slot(n.children, idx)), SquareQuarter(node'.area, p), Leaf(p))
    ensures Remove(n.(children := Replace(n.children, idx, Branch(node'))), p) == n
  {
    var t := Slot(n.children, idx);
    var node := Node(node'.area, Replace(Vacant, k, t));
    var kp := SquareQuarter(node'.area, p);
    ReplaceTwice(node.children, kp, Leaf(p), Empty);
    assert Remove(node', p) == node;
    SingleChild(node'.area, k, t);
    ReplaceTwice(n.children, idx, Branch(node'), t);
  }

  /** `remove` undoes `insert`: removing a cell just inserted gives back
    * the very same node. */
  lemma {:induction false} RemoveInsert(n: Node, p: Point)
    requires ValidNode(n) && Contains(n.area, p) && !Has(n, p)
    ensures Remove(Insert(n, Leaf(p), Wrapping(p)), p) == n
    decreases n.area.size
  {
    var idx := SquareQuarter(n.area, p);
    match Slot(n.children, idx)
    case Empty =>
      InsertIntoEmpty(n, Leaf(p), Wrapping(p));
      ReplaceTwice(n.children, idx, Leaf(p), Empty);
    case Leaf(pt) =>
      FreshNode(n, p, idx, Wrapping(pt));
      UndoSplit(n, p, idx, Wrapping(pt));
    case Branch(child) =>
      SlotNode(n, p, idx, child);
      if HoldsSquare(child.area, Wrapping(p)) {
        RemoveInsert(child, p);
        UndoDescend(n, p, idx, child);
      } else {
        FreshNode(n, p, idx, child.area);
        UndoSplit(n, p, idx, child.area);
      }
  }
  /** The round trip when the slot's node covers `p`: `insert` and `remove`
    * both descend into it, where the round trip holds. */
  lemma UndoDescend(n: Node, p: Point, idx: nat, child: Node)
    requires ValidNode(n) && Contains(n.area, p) && !Has(n, p) && idx == SquareQuarter(n.area, p)
    requires Slot(n.children, idx) == Branch(child) && HoldsSquare(child.area, Wrapping(p))
    requires InsertPre(child, Leaf(p), Wrapping(p))
    requires Remove(Insert(child, Leaf(p), Wrapping(p)), p) == child
    ensures Remove(Insert(n, Leaf(p), Wrapping(p)), p) == n
  {
    SlotNode(n, p, idx, child);
    InsertDescends(n, p, idx, child);
    var child' := Insert(child, Leaf(p), Wrapping(p));
    var n' := Insert(n, Leaf(p), Wrapping(p));
    RemoveDescends(n', p, idx, child', child);
    ReplaceTwice(n.children, idx, Branch(child'), Branch(child));
  }

  /** `insert` descends into a slot's node that covers `p`. */
  lemma InsertDescends(n: Node, p: Point, idx: nat, child: Node)
    requires ValidNode(n) && Contains(n.area, p) && !Has(n, p) && idx == SquareQuarter(n.area, p)
    requires Slot(n.children, idx) == Branch(child) && HoldsSquare(child.area, Wrapping(p))
    requires InsertPre(child, Leaf(p), Wrapping(p))
    ensures Insert(n, Leaf(p), Wrapping(p)) == n.(children := Replace(n.children, idx, Branch(Insert(child, Leaf(p), Wrapping(p)))))
  {
    SlotNode(n, p, idx, child);
  }

  /** `remove` descends into a slot's node that covers `p`, and keeps what
    * it leaves there when that has two children or more. */
  lemma RemoveDescends(n: Node, p: Point, idx: nat, child: Node, rest: Node)
    requires ValidNode(n) && idx == SquareQuarter(n.area, p)
    requires Slot(n.children, idx) == Branch(child) && ValidNode(child) && HoldsPoint(child.area, p)
    requires Remove(child, p) == rest && ChildrenCount(rest) >= 2
    ensures Remove(n, p) == n.(children := Replace(n.children, idx, Branch(rest)))
  {
  }



  /** The round trip when the slot's occupant, of extent `a`, does not
    * cover `p`, so that `insert` builds a new node for the two. */
  lemma UndoSplit(n: Node, p: Point, idx: nat, a: BinarySquare)
    requires ValidNode(n) && Contains(n.area, p) && !Has(n, p) && idx == SquareQuarter(n.area, p)
    requires !Slot(n.children, idx).Empty? && a == Extent(Slot(n.children, idx)) && !Contains(a, p)
    requires Slot(n.children, idx).Branch? ==> !HoldsSquare(a, Wrapping(p))
    requires Common(a, Wrapping(p)).Ok? && NodeArea(Common(a, Wrapping(p)).value)
    requires Contains(Common(a, Wrapping(p)).value, p) && Contains(Common(a, Wrapping(p)).value, a.anchor)
    requires SquareQuarter(Common(a, Wrapping(p)).value, a.anchor) != SquareQuarter(Common(a, Wrapping(p)).value, p)
    requires ValidSlot(Common(a, Wrapping(p)).value, SquareQuarter(Common(a, Wrapping(p)).value, a.anchor), Slot(n.children, idx))
    ensures Remove(Insert(n, Leaf(p), Wrapping(p)), p) == n
  {
    var c := Common(a, Wrapping(p)).value;
    var node' := InsertSplits(n, p, idx, a);
    AlignedSides(c, p);
    HoldsExact(c, p);
    UndoJoin(n, idx, node', SquareQuarter(c, a.anchor), p);
  }

  /** `insert` replaces the slot by a node over the `common` square holding
    * the occupant and the cell. */
  lemma InsertSplits(n: Node, p: Point, idx: nat, a: BinarySquare) returns (node': Node)
    requires ValidNode(n) && Contains(n.area, p) && !Has(n, p) && idx == SquareQuarter(n.area, p)
    requires !Slot(n.children, idx).Empty? && a == Extent(Slot(n.children, idx)) && !Contains(a, p)
    requires Slot(n.children, idx).Branch? ==> !HoldsSquare(a, Wrapping(p))
    requires Common(a, Wrapping(p)).Ok? && NodeArea(Common(a, Wrapping(p)).value)
    requires Contains(Common(a, Wrapping(p)).value, p) && Contains(Common(a, Wrapping(p)).value, a.anchor)
    requires SquareQuarter(Common(a, Wrapping(p)).value, a.anchor) != SquareQuarter(Common(a, Wrapping(p)).value, p)
    requires ValidSlot(Common(a, Wrapping(p)).value, SquareQuarter(Common(a, Wrapping(p)).value, a.anchor), Slot(n.children, idx))
    ensures node'.area == Common(a, Wrapping(p)).value
    ensures node'.children == Replace(Replace(Vacant, SquareQuarter(node'.area, a.anchor), Slot(n.children, idx)), SquareQuarter(node'.area, p), Leaf(p))
    ensures Insert(n, Leaf(p), Wrapping(p)) == n.(children := Replace(n.children, idx, Branch(node')))
  {
    var t := Slot(n.children, idx);
    var c := Common(a, Wrapping(p)).value;
    StartNode(c, t, a);
    InsertIntoEmpty(NewNode(c), t, a);
    var node := Insert(NewNode(c), t, a);
    SecondInsert(node, SquareQuarter(c, a.anchor), p);
    InsertIntoEmpty(node, Leaf(p), Wrapping(p));
    node' := Insert(node, Leaf(p), Wrapping(p));
  }
}
