/** The full iterator over the cells of a quadtree: a stack of trees,
  * popped from the top; a node is replaced by its four slots. */
module Iters {
  import opened Geometry
  import opened Trees

  /** The number of trees a traversal pops from `t`: a node counts itself
    * and everything below its four slots. */
  function Size(t: Tree): nat
  {
    match t
    case Branch(n) => 1 + Size(n.children.t0) + Size(n.children.t1) + Size(n.children.t2) + Size(n.children.t3)
    case _ => 1
  }

  /** The trees left to pop; the top of the stack is the last element. */
  function StackSize(s: seq<Tree>): nat
  {
    if s == [] then 0 else StackSize(s[..|s| - 1]) + Size(s[|s| - 1])
  }

  /** The cells stored in the trees of a stack. */
  function StackLeaves(s: seq<Tree>): multiset<Point>
  {
    if s == [] then multiset{} else StackLeaves(s[..|s| - 1]) + Leaves(s[|s| - 1])
  }

  lemma {:induction false} StackSizeAppend(s: seq<Tree>, t: seq<Tree>)
    ensures StackSize(s + t) == StackSize(s) + StackSize(t)
    decreases |t|
  {
    if t == [] {
      assert s + t == s;
    } else {
      assert (s + t)[..|s + t| - 1] == s + t[..|t| - 1];
      assert (s + t)[|s + t| - 1] == t[|t| - 1];
      StackSizeAppend(s, t[..|t| - 1]);
    }
  }

  lemma {:induction false} StackLeavesAppend(s: seq<Tree>, t: seq<Tree>)
    ensures StackLeaves(s + t) == StackLeaves(s) + StackLeaves(t)
    decreases |t|
  {
    if t == [] {
      assert s + t == s;
    } else {
      assert (s + t)[..|s + t| - 1] == s + t[..|t| - 1];
      assert (s + t)[|s + t| - 1] == t[|t| - 1];
      StackLeavesAppend(s, t[..|t| - 1]);
    }
  }

  /** A node's four slots hold all its cells and one tree fewer than the
    * node itself. */
  lemma SlotsOfNode(n: Node)
    ensures StackSize(Slots(n.children)) + 1 == Size(Branch(n))
    ensures StackLeaves(Slots(n.children)) == NodeLeaves(n)
  {
    var q := n.children;
    var s1, s2, s3, s4 := [q.t0], [q.t0, q.t1], [q.t0, q.t1, q.t2], [q.t0, q.t1, q.t2, q.t3];
    assert s1[..0] == [] && s2[..1] == s1 && s3[..2] == s2 && s4[..3] == s3;
    assert StackSize(s1) == Size(q.t0);
    assert StackSize(s2) == StackSize(s1) + Size(q.t1);
    assert StackSize(s3) == StackSize(s2) + Size(q.t2);
    assert StackSize(s4) == StackSize(s3) + Size(q.t3);
    assert StackLeaves(s1) == Leaves(q.t0);
    assert StackLeaves(s2) == StackLeaves(s1) + Leaves(q.t1);
    assert StackLeaves(s3) == StackLeaves(s2) + Leaves(q.t2);
    assert StackLeaves(s4) == StackLeaves(s3) + Leaves(q.t3);
  }

  /** The stack after popping the top node and pushing its slots. */
  lemma ExpandTop(s: seq<Tree>, n: Node)
    requires s != [] && s[|s| - 1] == Branch(n)
    ensures StackSize(s[..|s| - 1] + Slots(n.children)) < StackSize(s)
    ensures StackLeaves(s[..|s| - 1] + Slots(n.children)) == StackLeaves(s)
  {
    SlotsOfNode(n);
    StackSizeAppend(s[..|s| - 1], Slots(n.children));
    StackLeavesAppend(s[..|s| - 1], Slots(n.children));
  }

  /** The cells a traversal of the stack yields, in order. */
  function Enumerate(s: seq<Tree>): seq<Point>
    decreases StackSize(s)
  {
    if s == [] then []
    else
      var rest := s[..|s| - 1];
      match s[|s| - 1]
      case Empty => Enumerate(rest)
      case Leaf(p) => [p] + Enumerate(rest)
      case Branch(n) =>
        ExpandTop(s, n);
        Enumerate(rest + Slots(n.children))
  }

  /** A traversal yields every cell stored in the stack, as often as it is
    * stored. */
  lemma {:induction false} EnumerateLeaves(s: seq<Tree>)
    ensures multiset(Enumerate(s)) == StackLeaves(s)
    decreases StackSize(s)
  {
    if s != [] {
      var rest := s[..|s| - 1];
      match s[|s| - 1]
      case Empty =>
        EnumerateLeaves(rest);
      case Leaf(p) =>
        EnumerateLeaves(rest);
      case Branch(n) =>
        ExpandTop(s, n);
        EnumerateLeaves(rest + Slots(n.children));
    }
  }

  /** The iterator over a node yields each of its cells exactly as often as
    * the node stores it; for a valid node, the cells `has` finds, once
    * each. */
  lemma IterYieldsAll(root: Node, p: Point)
    ensures multiset(Enumerate(Slots(root.children))) == NodeLeaves(root)
    ensures ValidNode(root) ==> multiset(Enumerate(Slots(root.children)))[p] == if Has(root, p) then 1 else 0
  {
    EnumerateLeaves(Slots(root.children));
    SlotsOfNode(root);
    if ValidNode(root) {
      HasSpec(root, p);
      LeavesDistinct(root, p);
    }
  }

  /** `Iter`: the stack of trees still to visit. */
  class Iter {
    var stack: seq<Tree>

    /** `Iter::new`: the stack starts with the root's four slots. */
    constructor(root: Node)
      ensures stack == Slots(root.children)
    {
      stack := Slots(root.children);
    }

    /** `next`: pops until a leaf is found, skipping empty slots and
      * replacing a node by its slots. What it yields is the head of the
      * traversal of the old stack, and the new stack traverses the rest;
      * `None` comes only with an empty stack, which gives `None` again. */
    method Next() returns (r: Option<Point>)
      modifies this
      ensures Enumerate(old(stack)) == Yield(r) + Enumerate(stack)
      ensures r.None? ==> stack == []
      ensures old(stack) == [] ==> r.None? && stack == []
    {
      while stack != []
        invariant Enumerate(old(stack)) == Enumerate(stack)
        decreases StackSize(stack)
      {
        var top := stack[|stack| - 1];
        var rest := stack[..|stack| - 1];
        match top {
          case Empty =>
            stack := rest;
          case Leaf(pt) =>
            stack := rest;
            return Some(pt);
          case Branch(child) =>
            ExpandTop(stack, child);
            stack := rest + Slots(child.children);
        }
      }
      return None;
    }
  }
}
