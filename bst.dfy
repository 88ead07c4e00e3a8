// The tree object: a single root pointer that the public operations read,
// and that insertion and removal rebind to the root their recursive helpers
// return.
module SearchTree {
  import opened TreeModel
  import Rebalancer
  import Mutation
  import NodeWalks
  import RankQueries

  class Bst {
    var root: Tree

    /** Search order and exact counters: what every public operation keeps. */
    ghost predicate Valid()
      reads this
    {
      Ordered(root) && SizesExact(root)
    }

    /** The empty tree. */
    constructor()
      ensures root == Leaf && Valid() && WeightBalanced(root)
    {
      root := Leaf;
    }

    /** `from_sorted_vec`: the tree `_from_vec` builds over the first n entries
        of a; no entry when n <= 0. The shape is balanced and the counters
        exact whatever a holds; the tree is valid when those entries ascend. */
    constructor FromSortedVec(a: seq<int>, n: int)
      requires n <= |a|
      ensures n <= 0 ==> root == Leaf
      ensures 0 < n ==> InOrder(root) == a[..n]
      ensures SizesExact(root) && WeightBalanced(root)
      ensures 0 < n && Ascending(a[..n]) ==> Valid()
    {
      var t := Rebalancer.FromVec(a, 0, n - 1);
      Rebalancer.RightLeaningIsWeightBalanced(t);
      if 0 < n {
        assert a[0..n] == a[..n];
        OrderedIffAscending(t);
      }
      root := t;
    }

    /** `insert`: add x; false, with nothing changed, when x is already
        stored. On a valid tree success means exactly that x was new; the
        weight balance is kept when it held. */
    method Insert(x: int) returns (success: bool)
      modifies this
      ensures Elems(root) == old(Elems(root)) + {x}
      ensures success ==> Count(root) == old(Count(root)) + 1
      ensures !success ==> root == old(root) && x in old(Elems(root))
      ensures old(Valid()) ==> Valid() && (success <==> x !in old(Elems(root)))
      ensures old(WeightBalanced(root)) ==> WeightBalanced(root)
    {
      var r := Mutation.Insert(root, x);
      if Ordered(root) {
        Mutation.InsertKeepsOrder(root, x);
      }
      if SizesExact(root) {
        Mutation.InsertKeepsSizes(root, x);
      }
      if WeightBalanced(root) {
        Mutation.InsertKeepsBalance(root, x);
      }
      root, success := r.0, r.1;
    }

    /** `remove`: delete x; false, with nothing changed, when x is absent. On
        a valid tree it deletes exactly x, shrinks the tree by one node exactly
        when it succeeds, and the tree stays valid. */
    method Remove(x: int) returns (success: bool)
      modifies this
      ensures !success ==> root == old(root)
      ensures success ==> x in old(Elems(root))
      ensures old(Valid()) ==> Valid() && (success <==> x in old(Elems(root)))
      ensures old(Valid()) ==> Elems(root) == old(Elems(root)) - {x}
      ensures old(Valid()) ==> Count(root) == if success then old(Count(root)) - 1 else old(Count(root))
    {
      var r := Mutation.Remove(root, x);
      if Valid() {
        Mutation.RemoveKeepsOrder(root, x);
        Mutation.RemoveKeepsSizes(root, x);
      }
      root, success := r.0, r.1;
    }

    /** `contains`: walk down from the root, left of larger keys and right of
        smaller ones. A key found is stored; on an ordered tree every stored
        key is found. */
    method Contains(x: int) returns (b: bool)
      ensures b ==> x in Elems(root)
      ensures Ordered(root) ==> (b <==> x in Elems(root))
    {
      var p := root;
      while p != Leaf
        invariant Elems(p) <= Elems(root)
        invariant Ordered(root) ==> Ordered(p) && (x in Elems(root) ==> x in Elems(p))
        decreases p
      {
        if p.val == x {
          return true;
        }
        if x < p.val {
          p := p.left;
        } else {
          p := p.right;
        }
      }
      return false;
    }

    /** `size`: read from the root's counters; the number of stored keys when
        the counters are exact. */
    function Size(): (n: int)
      reads this
      ensures SizesExact(root) ==> n == Count(root) == |InOrder(root)|
    {
      TreeModel.Size(root)
    }

    /** `height`: -1 for the empty tree. */
    function Height(): (h: int)
      reads this
      ensures -1 <= h && (h == -1 <==> root == Leaf)
    {
      TreeModel.Height(root)
    }

    /** `min`: false on the empty tree, leaving the caller's variable as it
        was (passed in as `prev`); otherwise the key of the leftmost node,
        which is the least key of an ordered tree. */
    method Min(prev: int) returns (ok: bool, answer: int)
      ensures ok <==> root != Leaf
      ensures !ok ==> answer == prev
      ensures ok ==> answer == InOrder(root)[0]
      ensures ok && Ordered(root) ==> forall y :: y in Elems(root) ==> answer <= y
    {
      if root == Leaf {
        return false, prev;
      }
      var n := NodeWalks.MinNode(root);
      return true, n.val;
    }

    /** `max`: the key of the rightmost node, the greatest of an ordered
        tree. On the empty tree `max()` dereferences the `nullptr` that
        `_max_node` returns, so a non-empty tree is required. */
    method Max() returns (m: int)
      requires root != Leaf
      ensures m == InOrder(root)[|InOrder(root)| - 1]
      ensures Ordered(root) ==> forall y :: y in Elems(root) ==> y <= m
    {
      var n := NodeWalks.MaxNode(root);
      m := n.val;
    }

    /** `to_vector`: the keys in in-order, strictly ascending on an ordered
        tree, as many as `size` reports when the counters are exact. */
    method ToVector() returns (v: seq<int>)
      ensures v == InOrder(root)
      ensures Ordered(root) ==> Ascending(v)
      ensures SizesExact(root) ==> |v| == Size()
    {
      v := NodeWalks.AppendInOrder(root, []);
      assert v[0..] == v;
    }

    /** `get_ith`: false, leaving the caller's variable as it was, when i is
        outside 1..size; otherwise the i-th smallest key, found in one descent
        over the counters. */
    method GetIth(i: int, prev: int) returns (ok: bool, x: int)
      ensures !ok ==> x == prev
      ensures SizesExact(root) ==> (ok <==> 1 <= i <= |InOrder(root)|)
      ensures SizesExact(root) && ok ==> x == InOrder(root)[i - 1]
    {
      if i < 1 || i > Size() {
        return false, prev;
      }
      x := RankQueries.Select(root, i, prev);
      ok := true;
    }

    /** `get_ith_SLOW`: the same answer, found by the counting in-order walk
        started with nothing counted. */
    method GetIthSlow(i: int, prev: int) returns (ok: bool, x: int)
      ensures !ok ==> x == prev
      ensures SizesExact(root) ==> (ok <==> 1 <= i <= |InOrder(root)|)
      ensures SizesExact(root) && ok ==> x == InOrder(root)[i - 1]
    {
      var n := Size();
      if i < 1 || i > n {
        return false, prev;
      }
      var sofar;
      x, sofar := RankQueries.SelectByWalk(root, i, prev, 0);
      ok := true;
    }

    /** `num_geq`: on a valid tree, the number of stored keys at least x. */
    function NumGeq(x: int): (n: int)
      reads this
      ensures Valid() ==> n == RankQueries.CountIn(InOrder(root), RankQueries.AtLeast(x))
    {
      RankQueries.NumGeqCounts(root, x);
      RankQueries.NumGeq(root, x)
    }

    /** `num_leq`: on a valid tree, the number of stored keys at most x. */
    function NumLeq(x: int): (n: int)
      reads this
      ensures Valid() ==> n == RankQueries.CountIn(InOrder(root), RankQueries.AtMost(x))
    {
      RankQueries.NumLeqCounts(root, x);
      RankQueries.NumLeq(root, x)
    }

    /** `num_geq_SLOW`: the number of stored keys at least x, on any tree. */
    function NumGeqSlow(x: int): (n: int)
      reads this
      ensures n == RankQueries.CountIn(InOrder(root), RankQueries.AtLeast(x))
    {
      RankQueries.SlowCountsAreCounts(root, x, x, x);
      RankQueries.NumGeqSlow(root, x)
    }

    /** `num_leq_SLOW`: the number of stored keys at most x, on any tree. */
    function NumLeqSlow(x: int): (n: int)
      reads this
      ensures n == RankQueries.CountIn(InOrder(root), RankQueries.AtMost(x))
    {
      RankQueries.SlowCountsAreCounts(root, x, x, x);
      RankQueries.NumLeqSlow(root, x)
    }

    /** `num_range_SLOW`: the number of stored keys in [lo, hi], on any tree. */
    function NumRangeSlow(lo: int, hi: int): (n: int)
      reads this
      ensures n == RankQueries.CountIn(InOrder(root), RankQueries.Within(lo, hi))
    {
      RankQueries.SlowCountsAreCounts(root, lo, lo, hi);
      RankQueries.NumRangeSlow(root, lo, hi)
    }

    /** `num_range`: 0 for an empty range; otherwise the keys at most hi, less
        those at most lo, plus one when lo itself is stored. On a valid tree
        that is the number of stored keys in [lo, hi], as the linear walk
        counts them. */
    method NumRange(lo: int, hi: int) returns (n: int)
      ensures hi < lo ==> n == 0
      ensures Valid() ==> n == NumRangeSlow(lo, hi)
    {
      if hi < lo {
        RankQueries.NumRangeEmpty(root, lo, hi);
        return 0;
      }
      n := NumLeq(hi) - NumLeq(lo);
      var found := Contains(lo);
      if found {
        n := n + 1;
      }
      if Valid() {
        RankQueries.NumLeqMatchesSlow(root, hi);
        RankQueries.NumLeqMatchesSlow(root, lo);
        RankQueries.NumRangeDecomposes(root, lo, hi);
      }
    }
  }
}
