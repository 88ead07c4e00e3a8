// The node shape of the size-augmented search tree, the abstract views every
// operation is specified against (in-order sequence, element set, true node
// count), and the three invariants the tree relies on: search order, exact
// size counters and the weight-balance ratio.
module TreeModel {

  /** A subtree: empty, or a node holding a key, its two children and the
      counters that claim how many nodes each child holds. */
  datatype Tree = Leaf | Node(val: int, left: Tree, right: Tree, sizeLeft: int, sizeRight: int)

  /** The number of nodes actually present. */
  ghost function Count(t: Tree): nat
  {
    match t
    case Leaf => 0
    case Node(_, l, r, _, _) => Count(l) + Count(r) + 1
  }

  /** The keys in in-order: left subtree, node, right subtree. */
  function InOrder(t: Tree): (s: seq<int>)
    ensures |s| == Count(t)
  {
    match t
    case Leaf => []
    case Node(v, l, r, _, _) => InOrder(l) + [v] + InOrder(r)
  }

  /** The set of keys stored. */
  ghost function Elems(t: Tree): set<int>
  {
    match t
    case Leaf => {}
    case Node(v, l, r, _, _) => Elems(l) + {v} + Elems(r)
  }

  /** The element set holds exactly the keys of the in-order sequence. */
  lemma {:induction false} ElemsAreInOrderKeys(t: Tree)
    ensures forall y :: y in Elems(t) <==> y in InOrder(t)
  {
    match t
    case Leaf =>
    case Node(_, l, r, _, _) =>
      ElemsAreInOrderKeys(l);
      ElemsAreInOrderKeys(r);
  }

  /** Search order: every key on the left is smaller, every key on the right larger. */
  ghost predicate Ordered(t: Tree)
  {
    match t
    case Leaf => true
    case Node(v, l, r, _, _) =>
      Ordered(l) && Ordered(r) &&
      (forall y :: y in Elems(l) ==> y < v) &&
      (forall y :: y in Elems(r) ==> v < y)
  }

  /** Every counter equals the true node count of the child it describes. */
  ghost predicate SizesExact(t: Tree)
  {
    match t
    case Leaf => true
    case Node(_, l, r, sl, sr) =>
      sl == Count(l) && sr == Count(r) && SizesExact(l) && SizesExact(r)
  }

  /** At every node neither side outweighs twice the other plus one. */
  ghost predicate WeightBalanced(t: Tree)
  {
    match t
    case Leaf => true
    case Node(_, l, r, sl, sr) =>
      sl <= 2 * sr + 1 && sr <= 2 * sl + 1 && WeightBalanced(l) && WeightBalanced(r)
  }

  /** The invariant every public operation of the tree keeps. */
  ghost predicate Valid(t: Tree)
  {
    Ordered(t) && SizesExact(t)
  }

  ghost predicate Ascending(s: seq<int>)
  {
    forall i, j :: 0 <= i < j < |s| ==> s[i] < s[j]
  }

  lemma AscendingSplits(a: seq<int>, v: int, b: seq<int>)
    requires Ascending(a + [v] + b)
    ensures Ascending(a) && Ascending(b)
    ensures forall y :: y in a ==> y < v
    ensures forall y :: y in b ==> v < y
  {
    var s := a + [v] + b;
    forall i, j | 0 <= i < j < |a| ensures a[i] < a[j] {
      assert s[i] == a[i] && s[j] == a[j];
    }
    forall i, j | 0 <= i < j < |b| ensures b[i] < b[j] {
      assert s[|a| + 1 + i] == b[i] && s[|a| + 1 + j] == b[j];
    }
    forall y | y in a ensures y < v {
      var i :| 0 <= i < |a| && a[i] == y;
      assert s[i] == y && s[|a|] == v;
    }
    forall y | y in b ensures v < y {
      var j :| 0 <= j < |b| && b[j] == y;
      assert s[|a|] == v && s[|a| + 1 + j] == y;
    }
  }

  lemma AscendingJoins(a: seq<int>, v: int, b: seq<int>)
    requires Ascending(a) && Ascending(b)
    requires forall y :: y in a ==> y < v
    requires forall y :: y in b ==> v < y
    ensures Ascending(a + [v] + b)
  {
    var s := a + [v] + b;
    forall i, j | 0 <= i < j < |s| ensures s[i] < s[j] {
      if j < |a| {
        assert s[i] == a[i] && s[j] == a[j];
      } else if j == |a| {
        assert s[i] == a[i] && s[j] == v && a[i] in a;
      } else if i < |a| {
        assert s[i] == a[i] && s[j] == b[j - |a| - 1] && a[i] in a && b[j - |a| - 1] in b;
      } else if i == |a| {
        assert s[i] == v && s[j] == b[j - |a| - 1] && b[j - |a| - 1] in b;
      } else {
        assert s[i] == b[i - |a| - 1] && s[j] == b[j - |a| - 1];
      }
    }
  }

  /** Two trees with the same in-order sequence store the same keys. */
  lemma SameInOrderSameElems(a: Tree, b: Tree)
    requires InOrder(a) == InOrder(b)
    ensures Elems(a) == Elems(b)
  {
    forall y ensures y in Elems(a) <==> y in Elems(b) {
      ElemsAreInOrderKeys(a);
      ElemsAreInOrderKeys(b);
    }
  }

  /** The search order holds exactly when the in-order sequence strictly ascends. */
  lemma {:induction false} OrderedIffAscending(t: Tree)
    ensures Ordered(t) <==> Ascending(InOrder(t))
  {
    match t
    case Leaf =>
    case Node(v, l, r, _, _) =>
      OrderedIffAscending(l);
      OrderedIffAscending(r);
      ElemsAreInOrderKeys(l);
      ElemsAreInOrderKeys(r);
      if Ordered(t) {
        forall y | y in InOrder(l) ensures y < v { assert y in Elems(l); }
        forall y | y in InOrder(r) ensures v < y { assert y in Elems(r); }
        AscendingJoins(InOrder(l), v, InOrder(r));
      }
      if Ascending(InOrder(t)) {
        AscendingSplits(InOrder(l), v, InOrder(r));
        forall y | y in Elems(l) ensures y < v { assert y in InOrder(l); }
        forall y | y in Elems(r) ensures v < y { assert y in InOrder(r); }
      }
  }

  /** The size reported from the root's counters (`_size`): the true node
      count whenever the counters are exact. */
  function Size(t: Tree): (n: int)
    ensures SizesExact(t) ==> n == Count(t) == |InOrder(t)|
  {
    match t
    case Leaf => 0
    case Node(_, _, _, sl, sr) => sl + sr + 1
  }

  /** Height (`_height`): -1 for the empty tree, 0 for a single node. */
  function Height(t: Tree): (h: int)
    ensures -1 <= h
    ensures h == -1 <==> t == Leaf
  {
    match t
    case Leaf => -1
    case Node(_, l, r, _, _) =>
      var lh := Height(l);
      var rh := Height(r);
      1 + (if lh > rh then lh else rh)
  }

  /** A tree of height h has at least h + 1 nodes. */
  lemma {:induction false} HeightBelowCount(t: Tree)
    ensures Height(t) < Count(t)
  {
    match t
    case Leaf =>
    case Node(_, l, r, _, _) =>
      HeightBelowCount(l);
      HeightBelowCount(r);
  }

  /** The key of the leftmost node: the first in-order key, and the least
      key of an ordered tree. */
  function MinVal(t: Tree): (m: int)
    requires t.Node?
    ensures m == InOrder(t)[0] && m in Elems(t)
    ensures Ordered(t) ==> forall y :: y in Elems(t) ==> m <= y
  {
    if t.left == Leaf then t.val else MinVal(t.left)
  }

  /** The key of the rightmost node: the last in-order key, and the greatest
      key of an ordered tree. */
  function MaxVal(t: Tree): (m: int)
    requires t.Node?
    ensures m == InOrder(t)[|InOrder(t)| - 1] && m in Elems(t)
    ensures Ordered(t) ==> forall y :: y in Elems(t) ==> y <= m
  {
    if t.right == Leaf then t.val else MaxVal(t.right)
  }

  function Pow(b: nat, e: nat): nat
  {
    if e == 0 then 1 else b * Pow(b, e - 1)
  }

  /** A lower bound on n + 1 for a weight-balanced tree of n nodes and height
      k - 1: each level multiplies it by at least three halves, rounded up. */
  function MinWeight(k: nat): nat
  {
    if k == 0 then 1 else (3 * MinWeight(k - 1) + 1) / 2
  }

  lemma {:induction false} MinWeightMonotone(j: nat, k: nat)
    requires j <= k
    ensures MinWeight(j) <= MinWeight(k)
    decreases k - j
  {
    if j < k {
      MinWeightMonotone(j, k - 1);
    }
  }

  /** Two levels at least double the bound, so it grows like 2^(k/2). */
  lemma {:induction false} MinWeightGrows(j: nat)
    ensures Pow(2, j) <= MinWeight(2 * j)
  {
    if j > 0 {
      MinWeightGrows(j - 1);
      var w := MinWeight(2 * j - 2);
      assert MinWeight(2 * j - 1) == (3 * w + 1) / 2;
      assert MinWeight(2 * j) == (3 * MinWeight(2 * j - 1) + 1) / 2;
    }
  }

  /** One level of the height bound: a child of c nodes within the bound at
      height k - 1 that holds at most two thirds of the parent's weight n + 1
      puts the parent within the bound at height k. */
  lemma MinWeightStep(k: nat, c: nat, n: nat)
    requires MinWeight(k) <= c + 1
    requires 3 * (c + 1) <= 2 * (n + 1)
    ensures MinWeight(k + 1) <= n + 1
  {
  }

  /** At a balanced node with exact counters each child carries at most two
      thirds of the node's weight (node count plus one). */
  lemma ChildWeightShare(t: Tree)
    requires t.Node? && SizesExact(t) && WeightBalanced(t)
    ensures 3 * (Count(t.left) + 1) <= 2 * (Count(t) + 1)
    ensures 3 * (Count(t.right) + 1) <= 2 * (Count(t) + 1)
    ensures SizesExact(t.left) && WeightBalanced(t.left)
    ensures SizesExact(t.right) && WeightBalanced(t.right)
  {
  }

  /** One level of the height bound at a node, through its taller child c. */
  lemma HeightStep(t: Tree, c: Tree)
    requires Height(t) == Height(c) + 1
    requires MinWeight(Height(c) + 1) <= Count(c) + 1
    requires 3 * (Count(c) + 1) <= 2 * (Count(t) + 1)
    ensures MinWeight(Height(t) + 1) <= Count(t) + 1
  {
    var k := Height(c) + 1;
    MinWeightStep(k, Count(c), Count(t));
    assert Height(t) + 1 == k + 1;
  }

  /** Weight balance bounds the height: a tree of height h holds n nodes with
      MinWeight(h + 1) <= n + 1. */
  lemma {:induction false} HeightBound(t: Tree)
    requires SizesExact(t) && WeightBalanced(t)
    ensures MinWeight(Height(t) + 1) <= Count(t) + 1
  {
    match t
    case Leaf =>
    case Node(_, l, r, _, _) =>
      ChildWeightShare(t);
      if Height(l) > Height(r) {
        HeightBound(l);
        HeightStep(t, l);
      } else {
        HeightBound(r);
        HeightStep(t, r);
      }
  }

  /** Hence the height is logarithmic in the size: 2^((h+1)/2) <= n + 1, that
      is h < 2 * log2(n + 1) + 1. */
  lemma {:induction false} HeightLogarithmic(t: Tree)
    requires SizesExact(t) && WeightBalanced(t)
    ensures Pow(2, (Height(t) + 1) / 2) <= Count(t) + 1
  {
    var k := Height(t) + 1;
    HeightBound(t);
    MinWeightGrows(k / 2);
    MinWeightMonotone(2 * (k / 2), k);
  }
}
