// The mutation engine: recursive insertion and removal that return the new
// subtree root with a success flag, keep the size counters up to date and
// rebuild a subtree whose local weight check fails.
module Mutation {
  import opened TreeModel
  import opened Rebalancer

  /** The check every descent step of `_insert` and `_remove` ends with: when
      `heavy` (one side now outweighs twice the other plus one) the subtree n is
      rebuilt, otherwise it is returned as it is. Either way the keys, their
      order and the node count are those of n. */
  function Settle(n: Tree, heavy: bool): (r: Tree)
    ensures InOrder(r) == InOrder(n) && Elems(r) == Elems(n) && Count(r) == Count(n)
    ensures Ordered(r) <==> Ordered(n)
    ensures heavy ==> SizesExact(r) && WeightBalanced(r)
    ensures !heavy ==> r == n
  {
    RebalanceKeepsKeys(n);
    if heavy then Rebalance(n) else n
  }

  /** `_insert`: add x below t. A node already holding x stops the descent with
      failure and nothing changes; otherwise the counter on the side that
      grew is incremented and, if that side now outweighs twice the other plus
      one, the subtree is rebuilt. */
  function Insert(t: Tree, x: int): (r: (Tree, bool))
    ensures Elems(r.0) == Elems(t) + {x}
    ensures r.1 ==> Count(r.0) == Count(t) + 1
    ensures !r.1 ==> r.0 == t && x in Elems(t)
  {
    match t
    case Leaf => (Node(x, Leaf, Leaf, 0, 0), true)
    case Node(v, l, rt, sl, sr) =>
      if v == x then (t, false)
      else if x < v then
        var (newLeft, success) := Insert(l, x);
        if success then
          (Settle(Node(v, newLeft, rt, sl + 1, sr), sl + 1 > 2 * sr + 1), true)
        else (Node(v, newLeft, rt, sl, sr), false)
      else
        var (newRight, success) := Insert(rt, x);
        if success then
          (Settle(Node(v, l, newRight, sl, sr + 1), sr + 1 > 2 * sl + 1), true)
        else (Node(v, l, newRight, sl, sr), false)
  }

  /** On an ordered tree, insertion succeeds exactly when x is new, and the
      result is ordered again. */
  lemma {:induction false} InsertKeepsOrder(t: Tree, x: int)
    requires Ordered(t)
    ensures Ordered(Insert(t, x).0)
    ensures Insert(t, x).1 <==> x !in Elems(t)
  {
    match t
    case Leaf =>
    case Node(v, l, rt, sl, sr) =>
      if v == x {
      } else if x < v {
        InsertKeepsOrder(l, x);
        var newLeft := Insert(l, x).0;
        assert Ordered(Node(v, newLeft, rt, sl + 1, sr));
        assert x !in Elems(rt);
      } else {
        InsertKeepsOrder(rt, x);
        var newRight := Insert(rt, x).0;
        assert Ordered(Node(v, l, newRight, sl, sr + 1));
        assert x !in Elems(l);
      }
  }

  /** Insertion keeps every counter equal to the true subtree size. */
  lemma {:induction false} InsertKeepsSizes(t: Tree, x: int)
    requires SizesExact(t)
    ensures SizesExact(Insert(t, x).0)
  {
    match t
    case Leaf =>
    case Node(v, l, rt, sl, sr) =>
      if v == x {
      } else if x < v {
        InsertKeepsSizes(l, x);
      } else {
        InsertKeepsSizes(rt, x);
      }
  }

  /** Insertion keeps the weight-balance ratio at every node: the side that
      grew is checked and rebuilt when too heavy, the other side only gained
      slack. */
  lemma {:induction false} InsertKeepsBalance(t: Tree, x: int)
    requires WeightBalanced(t)
    ensures WeightBalanced(Insert(t, x).0)
  {
    match t
    case Leaf =>
    case Node(v, l, rt, sl, sr) =>
      if v == x {
      } else if x < v {
        InsertKeepsBalance(l, x);
      } else {
        InsertKeepsBalance(rt, x);
      }
  }

  /** `_remove`: delete x below t. A matching node with an empty side is
      replaced by its other child; one with two children takes the minimum of
      its right subtree, removes that key from the right subtree and
      decrements its right counter, without a weight check. On the way down,
      a successful removal decrements the counter of the side that shrank and
      rebuilds the subtree if the other side is now too heavy. */
  function Remove(t: Tree, x: int): (r: (Tree, bool))
    ensures !r.1 ==> r.0 == t
    ensures r.1 ==> x in Elems(t)
  {
    match t
    case Leaf => (Leaf, false)
    case Node(v, l, rt, sl, sr) =>
      if v == x then
        if l == Leaf then (rt, true)
        else if rt == Leaf then (l, true)
        else
          var m := MinVal(rt);
          var newRight := Remove(rt, m).0;
          (Node(m, l, newRight, sl, sr - 1), true)
      else if x < v then
        var (newLeft, success) := Remove(l, x);
        if success then
          (Settle(Node(v, newLeft, rt, sl - 1, sr), sr > 2 * (sl - 1) + 1), true)
        else (Node(v, newLeft, rt, sl, sr), false)
      else
        var (newRight, success) := Remove(rt, x);
        if success then
          (Settle(Node(v, l, newRight, sl, sr - 1), sl > 2 * (sr - 1) + 1), true)
        else (Node(v, l, newRight, sl, sr), false)
  }

  /** What removal achieves on an ordered tree: it succeeds exactly when x is
      present, deletes exactly x, shrinks the tree by one node on success and
      leaves it ordered. */
  ghost predicate RemovesExactly(t: Tree, x: int)
  {
    var r := Remove(t, x);
    Ordered(r.0) &&
    (r.1 <==> x in Elems(t)) &&
    Elems(r.0) == Elems(t) - {x} &&
    Count(r.0) == (if r.1 then Count(t) - 1 else Count(t))
  }

  /** Promoting the least key m of the right subtree into an ordered node
      whose key is being deleted, over a right subtree that lost exactly m,
      keeps the node ordered and removes exactly the old key. */
  lemma Promote(t: Tree, newRight: Tree)
    requires Ordered(t) && t.Node? && t.right.Node?
    requires Ordered(newRight) && Elems(newRight) == Elems(t.right) - {MinVal(t.right)}
    ensures var n := Node(MinVal(t.right), t.left, newRight, t.sizeLeft, t.sizeRight - 1);
            Ordered(n) && Elems(n) == Elems(t) - {t.val} &&
            Count(n) == Count(t) - Count(t.right) + Count(newRight)
  {
    var m := MinVal(t.right);
    assert t.val < m;
    assert forall y :: y in Elems(t.left) ==> y < m;
    assert forall y :: y in Elems(newRight) ==> m < y;
    assert Elems(t) - {t.val} == Elems(t.left) + {m} + Elems(newRight);
  }

  lemma RemovePromotedExactly(t: Tree)
    requires Ordered(t) && t.Node? && t.left.Node? && t.right.Node?
    requires RemovesExactly(t.right, MinVal(t.right))
    ensures RemovesExactly(t, t.val)
  {
    var Node(v, l, rt, sl, sr) := t;
    var m := MinVal(rt);
    var newRight := Remove(rt, m).0;
    Promote(t, newRight);
    RemoveMatchStep(t);
  }

  /** The two-children step of `_remove`, spelled out: the least key of the
      right subtree is promoted and removed there, and `sizeRight` drops by
      one with no weight check. */
  lemma RemoveMatchStep(t: Tree)
    requires t.Node? && t.left.Node? && t.right.Node?
    ensures Remove(t, t.val) ==
              (Node(MinVal(t.right), t.left, Remove(t.right, MinVal(t.right)).0, t.sizeLeft, t.sizeRight - 1), true)
  {
  }

  /** One step of `_remove` descending left, spelled out. */
  lemma RemoveLeftStep(t: Tree, x: int)
    requires t.Node? && t.val != x && x < t.val
    ensures var Node(v, l, rt, sl, sr) := t;
            var (newLeft, ok) := Remove(l, x);
            var n := Node(v, newLeft, rt, sl - 1, sr);
            Remove(t, x) == if ok then (Settle(n, sr > 2 * (sl - 1) + 1), true) else (t, false)
  {
  }

  /** One step of `_remove` descending right, spelled out. */
  lemma RemoveRightStep(t: Tree, x: int)
    requires t.Node? && t.val != x && !(x < t.val)
    ensures var Node(v, l, rt, sl, sr) := t;
            var (newRight, ok) := Remove(rt, x);
            var n := Node(v, l, newRight, sl, sr - 1);
            Remove(t, x) == if ok then (Settle(n, sl > 2 * (sr - 1) + 1), true) else (t, false)
  {
  }

  /** Replacing the left child of an ordered node by an ordered subtree
      holding the same keys less x keeps the node ordered and removes exactly
      x from it. */
  lemma ReplaceLeft(t: Tree, newLeft: Tree, x: int, sl: int)
    requires Ordered(t) && t.Node? && x < t.val
    requires Ordered(newLeft) && Elems(newLeft) == Elems(t.left) - {x}
    ensures var n := Node(t.val, newLeft, t.right, sl, t.sizeRight);
            Ordered(n) && Elems(n) == Elems(t) - {x} &&
            Count(n) == Count(t) - Count(t.left) + Count(newLeft)
  {
    assert x !in Elems(t.right);
  }

  /** The mirror image of ReplaceLeft. */
  lemma ReplaceRight(t: Tree, newRight: Tree, x: int, sr: int)
    requires Ordered(t) && t.Node? && t.val < x
    requires Ordered(newRight) && Elems(newRight) == Elems(t.right) - {x}
    ensures var n := Node(t.val, t.left, newRight, t.sizeLeft, sr);
            Ordered(n) && Elems(n) == Elems(t) - {x} &&
            Count(n) == Count(t) - Count(t.right) + Count(newRight)
  {
    assert x !in Elems(t.left);
  }

  lemma RemoveLeftExactly(t: Tree, x: int)
    requires Ordered(t) && t.Node? && x < t.val
    requires RemovesExactly(t.left, x)
    ensures RemovesExactly(t, x)
  {
    var Node(v, l, rt, sl, sr) := t;
    var (newLeft, ok) := Remove(l, x);
    RemoveLeftStep(t, x);
    ReplaceLeft(t, newLeft, x, sl - 1);
  }

  lemma RemoveRightExactly(t: Tree, x: int)
    requires Ordered(t) && t.Node? && t.val < x
    requires RemovesExactly(t.right, x)
    ensures RemovesExactly(t, x)
  {
    var Node(v, l, rt, sl, sr) := t;
    var (newRight, ok) := Remove(rt, x);
    RemoveRightStep(t, x);
    ReplaceRight(t, newRight, x, sr - 1);
  }

  /** On an ordered tree, removal succeeds exactly when x is present, deletes
      exactly x, shrinks the tree by one node on success and keeps it ordered. */
  lemma {:induction false} RemoveKeepsOrder(t: Tree, x: int)
    requires Ordered(t)
    ensures RemovesExactly(t, x)
  {
    match t
    case Leaf =>
    case Node(v, l, rt, sl, sr) =>
      if v == x {
        if l != Leaf && rt != Leaf {
          RemoveKeepsOrder(rt, MinVal(rt));
          RemovePromotedExactly(t);
        }
      } else if x < v {
        RemoveKeepsOrder(l, x);
        RemoveLeftExactly(t, x);
      } else {
        RemoveKeepsOrder(rt, x);
        RemoveRightExactly(t, x);
      }
  }

  /** The promoted key in the two-children case is the least key of the right
      subtree, and removing it from there always succeeds on an ordered tree:
      the internal consistency check of `_remove` never fires. */
  lemma PromotedRemovalSucceeds(t: Tree)
    requires Ordered(t) && t.Node? && t.left.Node? && t.right.Node?
    ensures MinVal(t.right) in Elems(t.right)
    ensures forall y :: y in Elems(t.right) ==> MinVal(t.right) <= y
    ensures Remove(t.right, MinVal(t.right)).1
  {
    RemoveKeepsOrder(t.right, MinVal(t.right));
  }

  /** On an ordered tree with exact counters, removal keeps every counter
      equal to the true subtree size. */
  lemma {:induction false} RemoveKeepsSizes(t: Tree, x: int)
    requires Ordered(t) && SizesExact(t)
    ensures SizesExact(Remove(t, x).0)
  {
    match t
    case Leaf =>
    case Node(v, l, rt, sl, sr) =>
      if v == x {
        if l != Leaf && rt != Leaf {
          RemoveKeepsSizes(rt, MinVal(rt));
          PromotedRemovalSucceeds(t);
          RemoveKeepsOrder(rt, MinVal(rt));
        }
      } else if x < v {
        RemoveKeepsSizes(l, x);
        RemoveKeepsOrder(l, x);
      } else {
        RemoveKeepsSizes(rt, x);
        RemoveKeepsOrder(rt, x);
      }
  }

  /** A tree over five ascending keys a < b < c < d < e with three keys left of
      the root d and one right of it. */
  function Lopsided(a: int, b: int, c: int, d: int, e: int): Tree
  {
    Node(d, Node(b, Node(a, Leaf, Leaf, 0, 0), Node(c, Leaf, Leaf, 0, 0), 1, 1),
         Node(e, Leaf, Leaf, 0, 0), 3, 1)
  }

  /** Lopsided is reachable through insertion alone: inserting d, b, e, a
      and c into the empty tree builds it, every insertion succeeding and no
      weight check firing on the way. */
  lemma InsertionsBuildLopsided(a: int, b: int, c: int, d: int, e: int)
    requires a < b < c < d < e
    ensures var t1 := Insert(Leaf, d);
            var t2 := Insert(t1.0, b);
            var t3 := Insert(t2.0, e);
            var t4 := Insert(t3.0, a);
            var t5 := Insert(t4.0, c);
            t1.1 && t2.1 && t3.1 && t4.1 && t5.1 && t5.0 == Lopsided(a, b, c, d, e)
  {
    var na, nb, nc, nd, ne := Node(a, Leaf, Leaf, 0, 0), Node(b, Leaf, Leaf, 0, 0),
      Node(c, Leaf, Leaf, 0, 0), Node(d, Leaf, Leaf, 0, 0), Node(e, Leaf, Leaf, 0, 0);
    assert Insert(Leaf, d) == (nd, true);
    var t2 := Node(d, nb, Leaf, 1, 0);
    assert Insert(Leaf, b) == (nb, true);
    assert Insert(nd, b) == (t2, true);
    var t3 := Node(d, nb, ne, 1, 1);
    assert Insert(Leaf, e) == (ne, true);
    assert Insert(t2, e) == (t3, true);
    var t4 := Node(d, Node(b, na, Leaf, 1, 0), ne, 2, 1);
    assert Insert(Leaf, a) == (na, true);
    assert Insert(nb, a) == (Node(b, na, Leaf, 1, 0), true);
    assert Insert(t3, a) == (t4, true);
    assert Insert(Leaf, c) == (nc, true);
    assert Insert(Node(b, na, Leaf, 1, 0), c) == (Node(b, na, nc, 1, 1), true);
    assert Insert(t4, c) == (Lopsided(a, b, c, d, e), true);
  }

  /** A single node with zero counters. */
  lemma SingleNode(k: int)
    ensures var n := Node(k, Leaf, Leaf, 0, 0);
            Valid(n) && WeightBalanced(n) && Elems(n) == {k} && Count(n) == 1 && MinVal(n) == k
  {
  }

  /** Removal does not keep the weight-balance ratio: Lopsided is valid and
      balanced, yet deleting its root promotes e without a weight check and
      leaves three nodes on the left against none on the right. */
  lemma RemoveCanUnbalance(a: int, b: int, c: int, d: int, e: int)
    requires a < b < c < d < e
    ensures Valid(Lopsided(a, b, c, d, e)) && WeightBalanced(Lopsided(a, b, c, d, e))
    ensures Remove(Lopsided(a, b, c, d, e), d) == (Node(e, Lopsided(a, b, c, d, e).left, Leaf, 3, 0), true)
    ensures !WeightBalanced(Remove(Lopsided(a, b, c, d, e), d).0)
  {
    var na, nc, right := Node(a, Leaf, Leaf, 0, 0), Node(c, Leaf, Leaf, 0, 0), Node(e, Leaf, Leaf, 0, 0);
    var left := Node(b, na, nc, 1, 1);
    var t := Node(d, left, right, 3, 1);
    SingleNode(a);
    SingleNode(c);
    SingleNode(e);
    assert Elems(left) == {a} + {b} + {c};
    assert Ordered(left) && SizesExact(left) && Count(left) == 3;
    assert Ordered(t) && SizesExact(t) && WeightBalanced(t);
    assert Remove(right, e) == (Leaf, true);
    assert Remove(t, d) == (Node(e, left, Leaf, 3, 0), true);
    assert Lopsided(a, b, c, d, e) == t;
  }
}
