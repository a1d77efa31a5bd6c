/**
  The code tree built by the decompressor.  A node is either a leaf carrying a
  value or an internal node with exactly two children, so every tree is a full
  binary tree by construction.  The weight field of the Java `HuffNode` class is
  always 0 where the processor builds nodes and is not represented.
 */
module HuffTree {

  datatype HuffNode = Leaf(value: int) | Node(left: HuffNode, right: HuffNode)

  /** Some leaf of t carries value v. */
  predicate HasLeaf(t: HuffNode, v: int)
  {
    match t
    case Leaf(x) => x == v
    case Node(l, r) => HasLeaf(l, v) || HasLeaf(r, v)
  }

  /** Every leaf value of t lies in lo .. hi - 1. */
  predicate ValuesIn(t: HuffNode, lo: int, hi: int)
  {
    match t
    case Leaf(x) => lo <= x < hi
    case Node(l, r) => ValuesIn(l, lo, hi) && ValuesIn(r, lo, hi)
  }

  function Leaves(t: HuffNode): (n: nat)
    ensures n >= 1
  {
    match t
    case Leaf(_) => 1
    case Node(l, r) => Leaves(l) + Leaves(r)
  }

  function Internal(t: HuffNode): nat
  {
    match t
    case Leaf(_) => 0
    case Node(l, r) => 1 + Internal(l) + Internal(r)
  }

  /** A full binary tree has one more leaf than it has internal nodes. */
  lemma {:induction false} LeavesOutnumberInternal(t: HuffNode)
    ensures Leaves(t) == Internal(t) + 1
  {
    match t
    case Leaf(_) =>
    case Node(l, r) =>
      LeavesOutnumberInternal(l);
      LeavesOutnumberInternal(r);
  }

  /** A value outside the range of a tree's leaf values is no leaf of it. */
  lemma {:induction false} ValuesInHasLeaf(t: HuffNode, lo: int, hi: int, v: int)
    requires ValuesIn(t, lo, hi) && HasLeaf(t, v)
    ensures lo <= v < hi
  {
    match t
    case Leaf(_) =>
    case Node(l, r) =>
      if HasLeaf(l, v) {
        ValuesInHasLeaf(l, lo, hi, v);
      } else {
        ValuesInHasLeaf(r, lo, hi, v);
      }
  }

  /**
    Starting at internal node t, taking the left child on false and the right
    child on true, path ends exactly on a leaf with value v (and passes only
    internal nodes before it): path is the code of that leaf below t.
   */
  predicate LeadsTo(t: HuffNode, path: seq<bool>, v: int)
    decreases |path|
  {
    && t.Node?
    && |path| > 0
    && var child := if path[0] then t.right else t.left;
       if |path| == 1 then child == Leaf(v) else LeadsTo(child, path[1..], v)
  }

  /** A code always ends on a leaf of the tree. */
  lemma {:induction false} LeadsToLeaf(t: HuffNode, path: seq<bool>, v: int)
    requires LeadsTo(t, path, v)
    ensures HasLeaf(t, v)
    decreases |path|
  {
    var child := if path[0] then t.right else t.left;
    if |path| > 1 {
      LeadsToLeaf(child, path[1..], v);
    }
  }
}
