// Order-statistic queries: selection of the i-th smallest key and counting
// keys on one side of a bound, each in a single descent that reads the size
// counters, next to the linear `*_SLOW` walks kept as reference
// implementations.
module RankQueries {
  import opened TreeModel

  /** Which keys a count admits: those at least lo, at most hi, or both. */
  datatype Bound = AtLeast(lo: int) | AtMost(hi: int) | Within(lo: int, hi: int)

  predicate Admits(b: Bound, y: int)
  {
    match b
    case AtLeast(lo) => lo <= y
    case AtMost(hi) => y <= hi
    case Within(lo, hi) => lo <= y <= hi
  }

  /** How many entries of s the bound admits. */
  ghost function CountIn(s: seq<int>, b: Bound): nat
  {
    if s == [] then 0
    else CountIn(s[..|s| - 1], b) + (if Admits(b, s[|s| - 1]) then 1 else 0)
  }

  lemma {:induction false} CountInConcat(s: seq<int>, t: seq<int>, b: Bound)
    ensures CountIn(s + t, b) == CountIn(s, b) + CountIn(t, b)
    decreases |t|
  {
    if t == [] {
      assert s + t == s;
    } else {
      var last := |t| - 1;
      assert (s + t)[..|s + t| - 1] == s + t[..last];
      CountInConcat(s, t[..last], b);
    }
  }

  lemma CountInNode(l: seq<int>, v: int, r: seq<int>, b: Bound)
    ensures CountIn(l + [v] + r, b) == CountIn(l, b) + (if Admits(b, v) then 1 else 0) + CountIn(r, b)
  {
    CountInConcat(l + [v], r, b);
    CountInConcat(l, [v], b);
    assert [v][..0] == [];
  }

  /** `_get_ith`: the i-th smallest key (1-based), found by comparing i with
      the left counter at each node. An index that falls off the tree leaves
      the caller's variable as it was, modelled as returning `x`. On a tree
      with exact counters that happens exactly when i is outside 1..n. */
  function Select(t: Tree, i: int, x: int): (r: int)
    ensures SizesExact(t) && 1 <= i <= Count(t) ==> r == InOrder(t)[i - 1]
    ensures SizesExact(t) && !(1 <= i <= Count(t)) ==> r == x
  {
    match t
    case Leaf => x
    case Node(v, l, rt, sl, _) =>
      if i == sl + 1 then v
      else if i <= sl then Select(l, i, x)
      else Select(rt, i - (sl + 1), x)
  }

  /** `_get_ith_SLOW`: an in-order walk that counts visited nodes in `sofar`
      and captures the key at which the count reaches i. The reference
      parameters x and sofar are threaded in and out. */
  method SelectByWalk(t: Tree, i: int, x: int, sofar: int) returns (xOut: int, sofarOut: int)
    ensures sofar < i <= sofar + Count(t) ==> xOut == InOrder(t)[i - sofar - 1] && sofarOut == i
    ensures !(sofar < i <= sofar + Count(t)) ==>
              xOut == x && sofarOut == (if sofar == i then sofar else sofar + Count(t))
  {
    if t == Leaf {
      return x, sofar;
    }
    xOut, sofarOut := SelectByWalk(t.left, i, x, sofar);
    if sofarOut == i {
      return;
    }
    sofarOut := sofarOut + 1;
    if sofarOut == i {
      xOut := t.val;
      return;
    }
    xOut, sofarOut := SelectByWalk(t.right, i, xOut, sofarOut);
  }

  /** `_num_geq`: at a node whose key is at least x, the node and its whole
      right side count (right counter plus one) and the search continues
      left; otherwise it continues right. */
  function NumGeq(t: Tree, x: int): (n: int)
    ensures SizesExact(t) ==> 0 <= n <= Count(t)
  {
    match t
    case Leaf => 0
    case Node(v, l, rt, _, sr) =>
      if x <= v then sr + 1 + NumGeq(l, x) else NumGeq(rt, x)
  }

  /** `_num_leq`: the mirror image of `_num_geq`. */
  function NumLeq(t: Tree, x: int): (n: int)
    ensures SizesExact(t) ==> 0 <= n <= Count(t)
  {
    match t
    case Leaf => 0
    case Node(v, l, rt, sl, _) =>
      if v <= x then sl + 1 + NumLeq(rt, x) else NumLeq(l, x)
  }

  /** `_num_geq_SLOW`: visit every node and count keys at least x. */
  function NumGeqSlow(t: Tree, x: int): (n: nat)
    ensures n <= Count(t)
  {
    match t
    case Leaf => 0
    case Node(v, l, rt, _, _) =>
      NumGeqSlow(l, x) + NumGeqSlow(rt, x) + (if v >= x then 1 else 0)
  }

  /** `_num_leq_SLOW`: visit every node and count keys at most x. */
  function NumLeqSlow(t: Tree, x: int): (n: nat)
    ensures n <= Count(t)
  {
    match t
    case Leaf => 0
    case Node(v, l, rt, _, _) =>
      NumLeqSlow(l, x) + NumLeqSlow(rt, x) + (if v <= x then 1 else 0)
  }

  /** `_num_range_SLOW`: visit every node and count keys in [lo, hi]. */
  function NumRangeSlow(t: Tree, lo: int, hi: int): (n: nat)
    ensures n <= Count(t)
  {
    match t
    case Leaf => 0
    case Node(v, l, rt, _, _) =>
      NumRangeSlow(l, lo, hi) + NumRangeSlow(rt, lo, hi) + (if v >= lo && v <= hi then 1 else 0)
  }

  /** The linear walks count exactly the in-order keys their bound admits. */
  lemma {:induction false} SlowCountsAreCounts(t: Tree, x: int, lo: int, hi: int)
    ensures NumGeqSlow(t, x) == CountIn(InOrder(t), AtLeast(x))
    ensures NumLeqSlow(t, x) == CountIn(InOrder(t), AtMost(x))
    ensures NumRangeSlow(t, lo, hi) == CountIn(InOrder(t), Within(lo, hi))
  {
    match t
    case Leaf =>
    case Node(v, l, rt, _, _) =>
      SlowCountsAreCounts(l, x, lo, hi);
      SlowCountsAreCounts(rt, x, lo, hi);
      CountInNode(InOrder(l), v, InOrder(rt), AtLeast(x));
      CountInNode(InOrder(l), v, InOrder(rt), AtMost(x));
      CountInNode(InOrder(l), v, InOrder(rt), Within(lo, hi));
  }

  /** A subtree whose keys all meet a one-sided bound counts all of its nodes
      in the slow walk; one whose keys all miss it counts none. */
  lemma {:induction false} GeqSlowAll(t: Tree, x: int)
    requires forall y :: y in Elems(t) ==> x <= y
    ensures NumGeqSlow(t, x) == Count(t)
  {
    match t
    case Leaf =>
    case Node(v, l, rt, _, _) =>
      assert v in Elems(t);
      forall y | y in Elems(l) || y in Elems(rt) ensures x <= y {
        assert y in Elems(t);
      }
      GeqSlowAll(l, x);
      GeqSlowAll(rt, x);
  }

  lemma {:induction false} GeqSlowNone(t: Tree, x: int)
    requires forall y :: y in Elems(t) ==> y < x
    ensures NumGeqSlow(t, x) == 0
  {
    match t
    case Leaf =>
    case Node(v, l, rt, _, _) =>
      assert v in Elems(t);
      forall y | y in Elems(l) || y in Elems(rt) ensures y < x {
        assert y in Elems(t);
      }
      GeqSlowNone(l, x);
      GeqSlowNone(rt, x);
  }

  lemma {:induction false} LeqSlowAll(t: Tree, x: int)
    requires forall y :: y in Elems(t) ==> y <= x
    ensures NumLeqSlow(t, x) == Count(t)
  {
    match t
    case Leaf =>
    case Node(v, l, rt, _, _) =>
      assert v in Elems(t);
      forall y | y in Elems(l) || y in Elems(rt) ensures y <= x {
        assert y in Elems(t);
      }
      LeqSlowAll(l, x);
      LeqSlowAll(rt, x);
  }

  lemma {:induction false} LeqSlowNone(t: Tree, x: int)
    requires forall y :: y in Elems(t) ==> x < y
    ensures NumLeqSlow(t, x) == 0
  {
    match t
    case Leaf =>
    case Node(v, l, rt, _, _) =>
      assert v in Elems(t);
      forall y | y in Elems(l) || y in Elems(rt) ensures x < y {
        assert y in Elems(t);
      }
      LeqSlowNone(l, x);
      LeqSlowNone(rt, x);
  }

  /** On an ordered tree with exact counters the one-descent count of keys at
      least x agrees with the linear walk. */
  lemma {:induction false} NumGeqMatchesSlow(t: Tree, x: int)
    requires Valid(t)
    ensures NumGeq(t, x) == NumGeqSlow(t, x)
  {
    match t
    case Leaf =>
    case Node(v, l, rt, _, _) =>
      if x <= v {
        NumGeqMatchesSlow(l, x);
        GeqSlowAll(rt, x);
      } else {
        NumGeqMatchesSlow(rt, x);
        GeqSlowNone(l, x);
      }
  }

  /** The same agreement for keys at most x. */
  lemma {:induction false} NumLeqMatchesSlow(t: Tree, x: int)
    requires Valid(t)
    ensures NumLeq(t, x) == NumLeqSlow(t, x)
  {
    match t
    case Leaf =>
    case Node(v, l, rt, _, _) =>
      if v <= x {
        NumLeqMatchesSlow(rt, x);
        LeqSlowAll(l, x);
      } else {
        NumLeqMatchesSlow(l, x);
        LeqSlowNone(rt, x);
      }
  }

  /** Hence the one-descent counts are the numbers of stored keys at least
      (at most) x, whenever the tree is ordered and its counters exact. */
  lemma NumGeqCounts(t: Tree, x: int)
    ensures Valid(t) ==> NumGeq(t, x) == CountIn(InOrder(t), AtLeast(x))
  {
    if Valid(t) {
      NumGeqMatchesSlow(t, x);
      SlowCountsAreCounts(t, x, x, x);
    }
  }

  lemma NumLeqCounts(t: Tree, x: int)
    ensures Valid(t) ==> NumLeq(t, x) == CountIn(InOrder(t), AtMost(x))
  {
    if Valid(t) {
      NumLeqMatchesSlow(t, x);
      SlowCountsAreCounts(t, x, x, x);
    }
  }

  lemma {:induction false} CountInAll(s: seq<int>, b: Bound)
    requires forall k :: 0 <= k < |s| ==> Admits(b, s[k])
    ensures CountIn(s, b) == |s|
    decreases |s|
  {
    if s != [] {
      CountInAll(s[..|s| - 1], b);
    }
  }

  lemma {:induction false} CountInNone(s: seq<int>, b: Bound)
    requires forall k :: 0 <= k < |s| ==> !Admits(b, s[k])
    ensures CountIn(s, b) == 0
    decreases |s|
  {
    if s != [] {
      CountInNone(s[..|s| - 1], b);
    }
  }

  /** In a strictly ascending sequence exactly i entries are at most the i-th. */
  lemma {:induction false} RankInAscending(s: seq<int>, i: int)
    requires Ascending(s) && 1 <= i <= |s|
    ensures CountIn(s, AtMost(s[i - 1])) == i
    decreases |s|
  {
    var prefix := s[..|s| - 1];
    if i == |s| {
      CountInAll(s, AtMost(s[i - 1]));
    } else {
      assert prefix[i - 1] == s[i - 1];
      RankInAscending(prefix, i);
    }
  }

  /** In a strictly ascending sequence exactly |s| - i + 1 entries are at least
      the i-th. */
  lemma {:induction false} RankFromTop(s: seq<int>, i: int)
    requires Ascending(s) && 1 <= i <= |s|
    ensures CountIn(s, AtLeast(s[i - 1])) == |s| - i + 1
    decreases |s|
  {
    var prefix := s[..|s| - 1];
    if i == |s| {
      CountInNone(prefix, AtLeast(s[i - 1]));
    } else {
      assert prefix[i - 1] == s[i - 1];
      RankFromTop(prefix, i);
    }
  }

  /** Selection and counting agree: on a valid tree the i-th smallest key has
      exactly i keys at most it and n - i + 1 keys at least it. */
  lemma SelectRank(t: Tree, i: int, x: int)
    requires Valid(t) && 1 <= i <= Count(t)
    ensures NumLeq(t, Select(t, i, x)) == i
    ensures NumGeq(t, Select(t, i, x)) == Count(t) - i + 1
  {
    var s := InOrder(t);
    var k := Select(t, i, x);
    NumLeqCounts(t, k);
    NumGeqCounts(t, k);
    OrderedIffAscending(t);
    RankInAscending(s, i);
    RankFromTop(s, i);
  }

  /** The identity `num_range` relies on: on an ordered tree and for lo <= hi,
      the keys in [lo, hi] are those at most hi, less those at most lo, plus lo
      itself when present. */
  lemma {:induction false} NumRangeDecomposes(t: Tree, lo: int, hi: int)
    requires Ordered(t) && lo <= hi
    ensures NumRangeSlow(t, lo, hi) ==
            NumLeqSlow(t, hi) - NumLeqSlow(t, lo) + (if lo in Elems(t) then 1 else 0)
  {
    match t
    case Leaf =>
    case Node(v, l, rt, _, _) =>
      NumRangeDecomposes(l, lo, hi);
      NumRangeDecomposes(rt, lo, hi);
      if lo == v {
        assert lo !in Elems(l) && lo !in Elems(rt);
      } else if lo < v {
        assert lo !in Elems(rt);
      } else {
        assert lo !in Elems(l);
      }
  }

  /** An empty range (hi < lo) admits no key. */
  lemma {:induction false} NumRangeEmpty(t: Tree, lo: int, hi: int)
    requires hi < lo
    ensures NumRangeSlow(t, lo, hi) == 0
  {
    match t
    case Leaf =>
    case Node(_, l, rt, _, _) =>
      NumRangeEmpty(l, lo, hi);
      NumRangeEmpty(rt, lo, hi);
  }
}
