// The rebalancer: flatten a subtree to its in-order sequence and rebuild it
// by repeatedly taking the lower middle key of the current index range.
module Rebalancer {
  import opened TreeModel

  /** The shape `_from_vec` produces: at every node the right side holds as
      many nodes as the left, or exactly one more. */
  ghost predicate RightLeaning(t: Tree)
  {
    match t
    case Leaf => true
    case Node(_, l, r, sl, sr) =>
      0 <= sl <= sr <= sl + 1 && RightLeaning(l) && RightLeaning(r)
  }

  lemma {:induction false} RightLeaningIsWeightBalanced(t: Tree)
    requires RightLeaning(t)
    ensures WeightBalanced(t)
  {
    match t
    case Leaf =>
    case Node(_, l, r, _, _) =>
      RightLeaningIsWeightBalanced(l);
      RightLeaningIsWeightBalanced(r);
  }

  /** The midpoint `_from_vec` picks, (low + hi) / 2. Indices are never
      negative here, so C++'s truncating division and Dafny's agree. */
  function Mid(low: int, hi: int): (m: int)
    requires 0 <= low <= hi
    ensures low <= m <= hi && 2 * m <= low + hi <= 2 * m + 1
  {
    (low + hi) / 2
  }

  /** `_from_vec(a, low, hi)`: a tree over a[low..hi] (inclusive bounds),
      empty when hi < low. Every node takes the middle index m of its range, so
      its counters m - low and hi - m are exact and differ by at most one, the
      right side being the larger. */
  function FromVec(a: seq<int>, low: int, hi: int): (t: Tree)
    requires low <= hi ==> 0 <= low && hi < |a|
    ensures InOrder(t) == if hi < low then [] else a[low..hi + 1]
    ensures SizesExact(t) && RightLeaning(t)
    decreases hi + 1 - low
  {
    if hi < low then Leaf
    else
      var m := Mid(low, hi);
      var l := FromVec(a, low, m - 1);
      var r := FromVec(a, m + 1, hi);
      SplitAtMid(a, low, m, hi, l, r);
      Node(a[m], l, r, m - low, hi - m)
  }

  /** A node holding the middle entry a[m] over subtrees built from
      a[low..m] and a[m+1..hi] holds a[low..hi]; its counters m - low and
      hi - m are exact and leave the right side at most one node heavier. */
  lemma SplitAtMid(a: seq<int>, low: int, m: int, hi: int, l: Tree, r: Tree)
    requires 0 <= low <= m <= hi < |a| && 2 * m <= low + hi <= 2 * m + 1
    requires InOrder(l) == (if m - 1 < low then [] else a[low..m])
    requires InOrder(r) == (if hi < m + 1 then [] else a[m + 1..hi + 1])
    requires SizesExact(l) && RightLeaning(l) && SizesExact(r) && RightLeaning(r)
    ensures InOrder(Node(a[m], l, r, m - low, hi - m)) == a[low..hi + 1]
    ensures SizesExact(Node(a[m], l, r, m - low, hi - m))
    ensures RightLeaning(Node(a[m], l, r, m - low, hi - m))
  {
    assert InOrder(l) == a[low..m] && InOrder(r) == a[m + 1..hi + 1];
    SliceAround(a, low, m, hi);
  }

  lemma SliceAround(a: seq<int>, low: int, m: int, hi: int)
    requires 0 <= low <= m <= hi < |a|
    ensures a[low..hi + 1] == a[low..m] + [a[m]] + a[m + 1..hi + 1]
  {
  }

  /** `rebalance`: rebuild a subtree from its own in-order sequence. The keys
      and their order are kept; the result has exact counters and is weight
      balanced whatever the input's counters were. */
  function Rebalance(t: Tree): (r: Tree)
    ensures InOrder(r) == InOrder(t)
    ensures SizesExact(r) && WeightBalanced(r)
  {
    var list := InOrder(t);
    var r := FromVec(list, 0, |list| - 1);
    assert list[0..|list|] == list;
    RightLeaningIsWeightBalanced(r);
    r
  }

  /** Since the in-order sequence is kept, so are the keys, the node count and
      the search order. */
  lemma RebalanceKeepsKeys(t: Tree)
    ensures Elems(Rebalance(t)) == Elems(t) && Count(Rebalance(t)) == Count(t)
    ensures Ordered(Rebalance(t)) <==> Ordered(t)
  {
    SameInOrderSameElems(Rebalance(t), t);
    OrderedIffAscending(t);
    OrderedIffAscending(Rebalance(t));
  }
}
