/** The query over a quadtree: the traversal of `Iters`, restricted to the
  * cells a box holds, which skips every node whose square does not overlap
  * the box. */
module Queries {
  import opened Ints
  import opened Geometry
  import opened Squares
  import opened Trees
  import opened Iters

  /** A tree a query with box `bbox` may meet: a node is valid and, unless
    * the box is the full range, which overlaps every square without looking
    * at it, ends below the top of the grid, so that the range
    * `anchor..anchor + size` of its square can be formed. */
  predicate Searchable(bbox: BBox, t: Tree)
  {
    t.Branch? ==> ValidNode(t.node) && (bbox == FullBox || RangeFits(t.node.area))
  }

  predicate AllSearchable(bbox: BBox, s: seq<Tree>)
  {
    forall i :: 0 <= i < |s| ==> Searchable(bbox, s[i])
  }

  /** The slots of a searchable node are searchable. */
  lemma SlotsSearchable(bbox: BBox, n: Node)
    requires Searchable(bbox, Branch(n))
    ensures AllSearchable(bbox, Slots(n.children))
  {
    forall i | 0 <= i < 4
      ensures Searchable(bbox, Slot(n.children, i))
    {
      SlotValid(n, i);
      QuadrantSpec(n.area, i);
    }
    assert Slots(n.children) == [Slot(n.children, 0), Slot(n.children, 1), Slot(n.children, 2), Slot(n.children, 3)];
  }

  /** Popping the top node and pushing its slots keeps a stack searchable. */
  lemma ExpandSearchable(bbox: BBox, s: seq<Tree>, n: Node)
    requires AllSearchable(bbox, s) && s != [] && s[|s| - 1] == Branch(n)
    ensures AllSearchable(bbox, s[..|s| - 1] + Slots(n.children))
  {
    SlotsSearchable(bbox, n);
  }

  /** Every box can search the slots of a valid root whose square ends
    * below the top of the grid, and the full range can search the slots of
    * any valid root. */
  lemma RootSearchable(bbox: BBox, root: Node)
    requires ValidNode(root) && (bbox == FullBox || RangeFits(root.area))
    ensures AllSearchable(bbox, Slots(root.children))
  {
    SlotsSearchable(bbox, root);
  }

  /** The cells the query yields from the stack, in order: a leaf when the
    * box holds it, the slots of a node only when its square overlaps the
    * box. */
  function Search(bbox: BBox, s: seq<Tree>): seq<Point>
    requires AllSearchable(bbox, s)
    decreases StackSize(s)
  {
    if s == [] then []
    else
      var rest := s[..|s| - 1];
      match s[|s| - 1]
      case Empty => Search(bbox, rest)
      case Leaf(p) => (if Holds(bbox, p) then [p] else []) + Search(bbox, rest)
      case Branch(n) =>
        if Overlaps(bbox, n.area) then
          ExpandTop(s, n);
          ExpandSearchable(bbox, s, n);
          Search(bbox, rest + Slots(n.children))
        else Search(bbox, rest)
  }

  /** A node whose square misses the box stores no cell the box holds. */
  lemma Pruned(bbox: BBox, n: Node, p: Point)
    requires Searchable(bbox, Branch(n)) && !Overlaps(bbox, n.area) && Holds(bbox, p)
    ensures p !in NodeLeaves(n)
  {
    if p in NodeLeaves(n) {
      LeavesInside(n, p);
      OverlapsSpec(bbox, n.area);
    }
  }

  /** The query yields exactly the cells of the stack that the box holds,
    * each as often as it is stored: skipping a node loses nothing. */
  lemma {:induction false} SearchHeld(bbox: BBox, s: seq<Tree>, p: Point)
    requires AllSearchable(bbox, s)
    ensures multiset(Search(bbox, s))[p] == if Holds(bbox, p) then StackLeaves(s)[p] else 0
    decreases StackSize(s)
  {
    if s != [] {
      var rest := s[..|s| - 1];
      assert StackLeaves(s) == StackLeaves(rest) + Leaves(s[|s| - 1]);
      match s[|s| - 1]
      case Empty =>
        SearchHeld(bbox, rest, p);
      case Leaf(q) =>
        SearchHeld(bbox, rest, p);
      case Branch(n) =>
        if Overlaps(bbox, n.area) {
          ExpandTop(s, n);
          ExpandSearchable(bbox, s, n);
          SearchHeld(bbox, rest + Slots(n.children), p);
        } else {
          SearchHeld(bbox, rest, p);
          if Holds(bbox, p) {
            Pruned(bbox, n, p);
          }
        }
    }
  }

  /** The query over a valid root yields a cell once when the root stores
    * it and the box holds it, and never otherwise. The root's own square is
    * never turned into a range, so only its slots need to be searchable. */
  lemma QueryYieldsHeld(bbox: BBox, root: Node, p: Point)
    requires ValidNode(root) && AllSearchable(bbox, Slots(root.children))
    ensures multiset(Search(bbox, Slots(root.children)))[p] == if Holds(bbox, p) && Has(root, p) then 1 else 0
  {
    SearchHeld(bbox, Slots(root.children), p);
    SlotsOfNode(root);
    HasSpec(root, p);
    LeavesDistinct(root, p);
  }

  /** `Query`: the box and the stack of trees still to visit. */
  class Query {
    const bbox: BBox
    var stack: seq<Tree>

    /** The query's stack holds only trees it can search. */
    ghost predicate Valid()
      reads this
    {
      AllSearchable(bbox, stack)
    }

    /** `Query::new`: the stack starts with the root's four slots; the
      * root's own square is not looked at. */
    constructor(root: Node, bbox: BBox)
      requires ValidNode(root) && AllSearchable(bbox, Slots(root.children))
      ensures this.bbox == bbox && stack == Slots(root.children)
      ensures Valid()
    {
      this.bbox := bbox;
      stack := Slots(root.children);
    }

    /** `next`: pops until a leaf the box holds is found, skipping empty
      * slots, leaves outside the box and nodes whose square misses the
      * box. What it yields is the head of the query of the old stack, and
      * the new stack queries the rest; `None` comes only with an empty
      * stack. */
    method Next() returns (r: Option<Point>)
      requires Valid()
      modifies this
      ensures Valid()
      ensures Search(bbox, old(stack)) == Yield(r) + Search(bbox, stack)
      ensures r.None? ==> stack == []
    {
      while stack != []
        invariant AllSearchable(bbox, stack)
        invariant Search(bbox, old(stack)) == Search(bbox, stack)
        decreases StackSize(stack)
      {
        var top := stack[|stack| - 1];
        var rest := stack[..|stack| - 1];
        match top {
          case Empty =>
            stack := rest;
          case Leaf(pt) =>
            stack := rest;
            if Holds(bbox, pt) {
              return Some(pt);
            }
          case Branch(child) =>
            if Overlaps(bbox, child.area) {
              ExpandTop(stack, child);
              ExpandSearchable(bbox, stack, child);
              stack := rest + Slots(child.children);
            } else {
              stack := rest;
            }
        }
      }
      return None;
    }
  }
}
