# Size-augmented weight-balanced search tree, modelled in Dafny

This project models `bst<T>` from `Program3BST.h`. It is a binary search tree that stores a set of keys, with no duplicates. Every node also carries two counters, `sizeLeft` and `sizeRight`, which hold the number of nodes in its left and right subtrees. The counters serve two purposes:

- **Rank queries in one descent.** They answer "the i-th smallest key" and "how many keys are ≥ x / ≤ x / in [lo, hi]" along a single root-to-leaf path.
- **Weight balance.** After an insertion or removal below a node, that node checks `side > 2·other + 1`. When the check fires, the whole subtree is flattened in order and rebuilt around middle elements (`rebalance` and `_from_vec`).

The model is split by what the code does:

| module | file | models |
|---|---|---|
| `TreeModel` | `tree.dfy` | The node (`bst_node`) as the value `Tree`. The abstract views used to specify everything: `InOrder`, `Elems`, `Count`. The invariants: `Ordered` (search order), `SizesExact` (each counter equals the true child size) and `WeightBalanced` (the ratio at every node). `_size`, `_height`, the leftmost and rightmost keys, and a height bound for balanced trees. |
| `Rebalancer` | `rebalance.dfy` | `_from_vec` and `rebalance`. |
| `Mutation` | `mutation.dfy` | `_insert` and `_remove` as functions returning the new subtree root with the success flag, plus their invariants. |
| `NodeWalks` | `walks.dfy` | The pointer-chasing loops `_min_node` and `_max_node`, and the in-order append `stat_to_vector` / `_to_vector`. |
| `RankQueries` | `queries.dfy` | `_get_ith`, `_get_ith_SLOW`, `_num_geq`, `_num_leq` and the linear `*_SLOW` counters, which serve as reference implementations. |
| `SearchTree` | `bst.dfy` | The object itself: class `Bst` with its `root` field, which `insert` and `remove` rebind, and the public operations. |

How the C++ maps into the model:

- **Nodes are values.** The recursive helpers overwrite node fields and return the possibly new subtree root, and the caller stores that root back into its child slot. In the model they are functions from the old subtree to the new one. The class method assigns the result to `root`, as `insert` and `remove` do.
- **Reference parameters are threaded through.** `_get_ith_SLOW` threads the result `x` and the counter `sofar` in and out. `get_ith` and `min` leave the caller's `x`/`answer` untouched on failure; the model takes that variable's old value as the input `prev` and returns it unchanged.
- **The shared vector is a value.** `stat_to_vector` pushes into a vector passed by pointer; the model passes the vector in and returns it extended.

Every operation is specified against the abstract views, and the properties are proved:

- **Insertion** adds exactly `x`. On an ordered tree it succeeds exactly when `x` was absent, and grows the count by one on success. It keeps search order and counter exactness, and keeps weight balance whenever that held before, including through a rebuild.
- **Removal**, on an ordered tree, deletes exactly `x`. It succeeds exactly when `x` was present, and shrinks the count by one on success. It keeps search order and counter exactness. In the two-children case the promoted key is the least key of the right subtree, and removing it from there always succeeds, so the `std::cerr` diagnostic can never fire.
- **Rebuilding** keeps the in-order sequence. `_from_vec` yields exact counters with `sizeLeft ≤ sizeRight ≤ sizeLeft + 1` at every node, so the result is weight balanced.
- **On a valid tree, the one-descent queries agree with the linear walks.** These are selection, the two counts and the range count. The linear walks count exactly the in-order keys their bound admits.
- **Selection and counting agree.** The i-th key has exactly i keys at or below it.
- **Weight balance bounds the height.** `2^((h+1)/2) ≤ n + 1`.

**Removal can break the weight balance.** The weight checks after each insertion and each one-sided removal (`Program3BST.h:81`, `:90`, `:193` and `:201`) show that the ratio is meant to hold at every node. The two-children case of `_remove` does not keep it:

- Where `_remove` deletes a node with two children (`Program3BST.h:181-187`), it decrements `sizeRight` with no weight check.
- Within that removal no check looks at the node again. The imbalance stays until a later insertion or removal through the node fires the node's own check, or until an ancestor's check rebuilds a subtree containing it.

The model follows the code. `Mutation.InsertionsBuildLopsided` shows that inserting d, b, e, a and c (for any keys a < b < c < d < e) into an empty tree builds a valid, balanced five-key tree, with three keys left of the root and one right of it. `Mutation.RemoveCanUnbalance` shows that removing its root leaves three nodes against none. Accordingly, no member claims that removal preserves `WeightBalanced`.

## Model

| member | source | states |
|---|---|---|
| TreeModel.Size | Program3BST.h:221-224 | The size read from the root's counters (`sizeLeft + sizeRight + 1`, 0 when empty) is the true node count, and the length of the in-order sequence, whenever the counters are exact |
| TreeModel.Height | Program3BST.h:233-240 | The height is at least -1, and is -1 exactly for the empty tree |
| TreeModel.HeightBelowCount | Program3BST.h:233-240 | The height is less than the number of nodes |
| TreeModel.HeightBound | Program3BST.h:79-92 | With exact counters and the ratio bound at every node, a tree of height h and n nodes has MinWeight(h+1) ≤ n+1; each level multiplies the weight by at least 3/2 |
| TreeModel.HeightLogarithmic | Program3BST.h:79-92 | Hence 2^((h+1)/2) ≤ n+1: the height of a balanced tree is logarithmic in its size |
| TreeModel.MinVal | Program3BST.h:140-146 | The leftmost key is the first in-order key and is stored; on an ordered tree it is the least key |
| TreeModel.MaxVal | Program3BST.h:150-156 | The rightmost key is the last in-order key and is stored; on an ordered tree it is the greatest key |
| TreeModel.OrderedIffAscending | Program3BST.h:284-291 | Search order holds exactly when the in-order sequence strictly ascends (both directions) |
| Rebalancer.FromVec | Program3BST.h:564-576 | For indices low..hi in range, the tree built has in-order sequence a[low..hi] (empty when hi < low). Its counters are exact, and at every node the right side holds as many nodes as the left or one more |
| Rebalancer.RightLeaningIsWeightBalanced | Program3BST.h:559-563 | The shape `_from_vec` builds satisfies the weight-balance ratio at every node |
| Rebalancer.Rebalance | Program3BST.h:50-56 | Rebuilding keeps the in-order sequence, and yields exact counters and weight balance whatever the input's counters were |
| Rebalancer.RebalanceKeepsKeys | Program3BST.h:50-56 | Rebuilding keeps the key set and the node count, and keeps search order in both directions |
| Mutation.Settle | Program3BST.h:79-83 | The post-descent check keeps keys, in-order sequence, count and order. A rebuild, when triggered, yields exact counters and balance, and the subtree is untouched otherwise |
| Mutation.Insert | Program3BST.h:67-95 | The key set afterwards is the old set plus x. Success adds exactly one node. Failure means x was already stored and the subtree is returned unchanged |
| Mutation.InsertKeepsOrder | Program3BST.h:67-95 | On an ordered tree the result is ordered, and insertion succeeds exactly when x was absent |
| Mutation.InsertKeepsSizes | Program3BST.h:77-94 | Insertion keeps every counter equal to the true size of the child it describes |
| Mutation.InsertKeepsBalance | Program3BST.h:79-92 | Insertion into a weight-balanced tree leaves it weight balanced, including where the check triggers a rebuild |
| Mutation.Remove | Program3BST.h:160-207 | A failed removal returns the subtree unchanged, and a successful one removed a stored key |
| Mutation.RemoveKeepsOrder | Program3BST.h:160-207 | On an ordered tree removal succeeds exactly when x is stored, removes exactly x, shrinks the count by one exactly on success and leaves the tree ordered |
| Mutation.RemoveKeepsSizes | Program3BST.h:160-207 | On an ordered tree with exact counters, removal keeps every counter exact, including the decremented `sizeRight` in the two-children case |
| Mutation.RemovePromotedExactly | Program3BST.h:181-187 | Promoting the least key of the right subtree and removing it there deletes exactly the matched key and keeps order |
| Mutation.Promote | Program3BST.h:182-184 | The promoted key sits between the left subtree and the rest of the right subtree, so the node stays ordered |
| Mutation.RemoveLeftExactly | Program3BST.h:189-196 | A removal on the left, followed by the decrement and the weight check, deletes exactly x from the node |
| Mutation.RemoveRightExactly | Program3BST.h:197-204 | A removal on the right, followed by the decrement and the weight check, deletes exactly x from the node |
| Mutation.PromotedRemovalSucceeds | Program3BST.h:182-186 | The promoted key is the least key of the right subtree, and removing it from there always succeeds, so the diagnostic never fires |
| Mutation.InsertionsBuildLopsided | Program3BST.h:67-95 | Inserting d, b, e, a, c into the empty tree succeeds every time and builds exactly the tree Lopsided, with no rebuild on the way |
| Mutation.RemoveCanUnbalance | Program3BST.h:181-187 | For any keys a < b < c < d < e, the valid balanced tree Lopsided loses its balance when its root is removed |
| NodeWalks.MinNode | Program3BST.h:140-146 | The loop ends at a node with no left child, holding the first in-order key (the least on an ordered tree); the empty tree yields the empty tree |
| NodeWalks.MaxNode | Program3BST.h:150-156 | The loop ends at a node with no right child, holding the last in-order key (the greatest on an ordered tree); the empty tree yields the empty tree |
| NodeWalks.AppendInOrder | Program3BST.h:274-280 | The vector afterwards is the old vector followed by the in-order keys, which strictly ascend on an ordered tree |
| RankQueries.Select | Program3BST.h:397-408 | With exact counters, the descent yields the i-th in-order key for 1 ≤ i ≤ n, and leaves the caller's value for any other i |
| RankQueries.SelectByWalk | Program3BST.h:410-423 | The counting walk started at `sofar` captures the (i - sofar)-th in-order key and stops the count at i when i is among the next n positions. Otherwise it keeps x and ends at sofar + n, or at sofar when the count was already i |
| RankQueries.NumGeq | Program3BST.h:435-445 | With exact counters, the one-descent count lies between 0 and the node count; `NumGeqMatchesSlow` and `NumGeqCounts` pin it down exactly |
| RankQueries.NumLeq | Program3BST.h:448-458 | With exact counters, the one-descent count lies between 0 and the node count; `NumLeqMatchesSlow` and `NumLeqCounts` pin it down exactly |
| RankQueries.NumGeqSlow | Program3BST.h:425-432 | The linear walk counts at most the node count; `SlowCountsAreCounts` gives its exact value |
| RankQueries.NumLeqSlow | Program3BST.h:460-469 | The linear walk counts at most the node count; `SlowCountsAreCounts` gives its exact value |
| RankQueries.NumRangeSlow | Program3BST.h:471-481 | The linear walk counts at most the node count; `SlowCountsAreCounts` gives its exact value |
| RankQueries.SlowCountsAreCounts | Program3BST.h:425-481 | The three linear walks count exactly the in-order keys that are ≥ x, ≤ x, or within [lo, hi] |
| RankQueries.NumGeqMatchesSlow | Program3BST.h:435-445 | On a valid tree the one-descent `_num_geq` equals `_num_geq_SLOW` |
| RankQueries.NumLeqMatchesSlow | Program3BST.h:448-458 | On a valid tree the one-descent `_num_leq` equals `_num_leq_SLOW` |
| RankQueries.NumGeqCounts | Program3BST.h:327-336 | On a valid tree `_num_geq` is the number of stored keys ≥ x |
| RankQueries.NumLeqCounts | Program3BST.h:347-357 | On a valid tree `_num_leq` is the number of stored keys ≤ x |
| RankQueries.SelectRank | Program3BST.h:397-408 | On a valid tree the i-th key has exactly i keys ≤ it and n - i + 1 keys ≥ it |
| RankQueries.NumRangeDecomposes | Program3BST.h:376-383 | On an ordered tree with lo ≤ hi, the keys in [lo, hi] number leq(hi) - leq(lo) + 1 when lo is stored, and leq(hi) - leq(lo) otherwise |
| RankQueries.NumRangeEmpty | Program3BST.h:377-378 | An empty range (hi < lo) holds no key |
| SearchTree.Bst.constructor | Program3BST.h:27-29 | A new tree is empty, valid and balanced |
| SearchTree.Bst.FromSortedVec | Program3BST.h:579-584 | The tree holds the first n entries of a in order (none when n ≤ 0), with exact counters and balance; it is valid when those entries ascend |
| SearchTree.Bst.Insert | Program3BST.h:109-113 | The set grows by x, success adds one node, and failure changes nothing and means x was stored. On a valid tree the result is valid and success means x was new. Balance is kept |
| SearchTree.Bst.Remove | Program3BST.h:211-215 | Failure changes nothing, and success means x was stored. On a valid tree: success iff x was stored, exactly x is deleted, the count drops by one on success, and the tree stays valid |
| SearchTree.Bst.Contains | Program3BST.h:121-135 | A found key is stored, and on an ordered tree every stored key is found |
| SearchTree.Bst.Size | Program3BST.h:227-229 | With exact counters, `size()` is the number of stored keys |
| SearchTree.Bst.Height | Program3BST.h:244-246 | `height()` is at least -1, and -1 exactly for the empty tree |
| SearchTree.Bst.Min | Program3BST.h:248-254 | Fails exactly on the empty tree, leaving the answer as it was. Otherwise yields the first in-order key, the least on an ordered tree |
| SearchTree.Bst.Max | Program3BST.h:256-258 | On a non-empty tree yields the last in-order key, the greatest on an ordered tree |
| SearchTree.Bst.ToVector | Program3BST.h:292-295 | The vector is the in-order sequence, strictly ascending on an ordered tree, and its length is `size()` when the counters are exact |
| SearchTree.Bst.GetIth | Program3BST.h:309-314 | With exact counters, succeeds exactly for 1 ≤ i ≤ n and then yields the i-th smallest key. Failure leaves x as it was |
| SearchTree.Bst.GetIthSlow | Program3BST.h:316-325 | The same answer as `get_ith`, by the counting walk started with `sofar = 0` |
| SearchTree.Bst.NumGeq | Program3BST.h:334-336 | On a valid tree, the number of stored keys ≥ x |
| SearchTree.Bst.NumLeq | Program3BST.h:355-357 | On a valid tree, the number of stored keys ≤ x |
| SearchTree.Bst.NumGeqSlow | Program3BST.h:343-345 | On any tree, the number of stored keys ≥ x |
| SearchTree.Bst.NumLeqSlow | Program3BST.h:364-366 | On any tree, the number of stored keys ≤ x |
| SearchTree.Bst.NumRangeSlow | Program3BST.h:390-392 | On any tree, the number of stored keys in [lo, hi] |
| SearchTree.Bst.NumRange | Program3BST.h:376-383 | 0 when hi < lo. On a valid tree it equals the linear range count, that is the number of stored keys in [lo, hi] |

## Left out

- The console printers `indent`, `_inorder`, `_preorder`, `_postorder`, `inorder`, `preorder` and `postorder` (Program3BST.h:488-556) are left out, because they only write to standard output.
- The stubs `num_leaves` and `num_at_level` (Program3BST.h:588-603) are left out, because they only print a warning and return 0.
- Memory management is not modelled: `delete_nodes`, the destructor, and the `delete` calls in `_remove` and `rebalance`. Subtrees are values, so a subtree that `rebalance` discards is simply replaced by the rebuilt one.
- In-place update and pointer identity are not modelled. Nodes are immutable values, so the model says nothing about which node objects are reused or about aliasing. No node is ever shared, so no behaviour depends on them.
- The `std::cerr` diagnostic in `_remove` is not modelled as output. It is replaced by the proof `Mutation.PromotedRemovalSucceeds` that the condition it reports never occurs on a valid tree.
- `_to_vector` and `stat_to_vector` fall off their end without returning on a non-empty tree, which is undefined behaviour in C++. The model gives the intended result, the vector extended with the in-order keys. Both functions share one model, `NodeWalks.AppendInOrder`.
- Keys are mathematical integers rather than a template parameter `T`. Only `<` and `==` on keys are used.
- `int` overflow of the counters, of `i - (sizeLeft + 1)` and of `low + hi` is not modelled, and neither is the `size_t` arithmetic of `list.size() - 1`. All integers are unbounded. `rebalance` only runs on non-empty subtrees, so `list.size() - 1` never wraps.
- The running-time claims in the doc comments (O(h), O(n)) are not modelled.
- SearchTree.Bst.FromSortedVec: requires n ≤ |a|. For a larger n, `_from_vec` reads past the end of the vector (`Program3BST.h:570`), which is undefined behaviour in C++.
- SearchTree.Bst.Max: requires a non-empty tree. On an empty tree `max()` dereferences the `nullptr` that `_max_node` returns, and no result is defined.
- SearchTree.Bst.Remove: does not promise to keep the weight-balance ratio, because the two-children case of `_remove` skips the check. `Mutation.RemoveCanUnbalance` proves that an input breaking the ratio exists.
