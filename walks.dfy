// The pointer walks of the tree: the loops that follow left or right links to
// the extreme node of a subtree, and the in-order walk that appends every key
// to a shared vector.
module NodeWalks {
  import opened TreeModel

  /** `_min_node`: follow left links to the leftmost node. The empty tree
      yields the empty tree, where `_min_node` returns `nullptr`. */
  method MinNode(r: Tree) returns (n: Tree)
    ensures r == Leaf ==> n == Leaf
    ensures r.Node? ==> n.Node? && n.left == Leaf && n.val == InOrder(r)[0]
    ensures r.Node? && Ordered(r) ==> forall y :: y in Elems(r) ==> n.val <= y
  {
    if r == Leaf {
      return Leaf;
    }
    n := r;
    while n.left != Leaf
      invariant n.Node? && MinVal(n) == MinVal(r)
      decreases n
    {
      n := n.left;
    }
  }

  /** `_max_node`: follow right links to the rightmost node. */
  method MaxNode(r: Tree) returns (n: Tree)
    ensures r == Leaf ==> n == Leaf
    ensures r.Node? ==> n.Node? && n.right == Leaf && n.val == InOrder(r)[|InOrder(r)| - 1]
    ensures r.Node? && Ordered(r) ==> forall y :: y in Elems(r) ==> y <= n.val
  {
    if r == Leaf {
      return Leaf;
    }
    n := r;
    while n.right != Leaf
      invariant n.Node? && MaxVal(n) == MaxVal(r)
      decreases n
    {
      n := n.right;
    }
  }

  /** `stat_to_vector`: push the keys of r onto the end of `list` in in-order
      order; the vector grown in place is threaded through as a value. */
  method AppendInOrder(r: Tree, list: seq<int>) returns (out: seq<int>)
    ensures out == list + InOrder(r)
    ensures Ordered(r) ==> Ascending(out[|list|..])
  {
    if r == Leaf {
      return list;
    }
    out := AppendInOrder(r.left, list);
    out := out + [r.val];
    out := AppendInOrder(r.right, out);
    assert out == list + InOrder(r);
    assert out[|list|..] == InOrder(r);
    OrderedIffAscending(r);
  }
}
