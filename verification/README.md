# AVL dictionary in Dafny

This project models `AVLTree.py`, an AVL tree used as an ordered dictionary
from integer keys to values. The model covers:

- the node's height and balance bookkeeping;
- search from the root and finger search from the cached maximum;
- insertion from the root and finger insertion from the maximum, with the
  count of edges walked and of height promotions;
- deletion of a node, with its three structural cases and the delete-side
  rebalancing pass;
- join of two trees through a separating entry;
- split at a node;
- the in-order export to a list.

## How the model is built

A tree is the datatype `Tree<V> = Virtual | Node(left, key, value, right,
height)`. `Virtual` is the sentinel child the source hangs under every leaf,
and it has height -1. Values are an opaque type parameter. The dictionary is
`Dict(root, max, size)`, where `max` is the cached maximum entry and `size` is
the cached item count.

The meaning of a tree is its in-order list of `(key, value)` entries
(`AvlNode.InOrder`). Every operation is specified against that list, using
two filters: `Below(s, k)` keeps the entries whose key is smaller than `k`,
and `Above(s, k)` keeps those whose key is larger. The invariants are:

- `Bst`: the list is strictly sorted by key;
- `HeightsOk`: every cached height is one more than the larger child height;
- `Balanced`: every balance factor is -1, 0 or 1.

Together these make `Avl`. `Dictionary.Valid` adds the cached maximum and
size.

The source mutates linked nodes and climbs parent links. The model instead
rebuilds the path from the root down as pure functions, one level per
recursive call. Each pass of an upward loop at one node becomes one step of
that recursion:

- `Insertion.InsertStep` for `rebalance`;
- `Rotation.Rebalanced` for `rebalance_delete`.

### Rotation dispatch

`rotate` (lines 359-371) picks a double rotation whenever the heavy child's
balance factor is not exactly 1 (or exactly -1 on the right). That includes
a heavy child at balance factor 0. After an insertion this never arises. It
does arise after a deletion or inside a join, and there the double rotation
can leave a node out of balance (see Findings).

The model therefore has a `Dispatch` parameter:

- `AsWritten` is the source's choice;
- `Corrected` uses a single rotation when the heavy child is level.

Insertion uses `AsWritten` and is proved to keep the tree AVL. For deletion
and join, under either dispatch the model proves consistent heights, a
balanced root and the correct entries; only `Corrected` is proved to keep
every node balanced. Split, and the laws that split, join or insert after a
deletion, use `Corrected`; the insert-then-delete law and the entry-level
half of the delete-then-reinsert law hold under either dispatch.

### Notes on the code

- After a rotation, the code fixes the pivot's height first and the demoted
  node's height second (lines 394-395 and 418-419). The pivot is therefore
  computed from the demoted node's stale height. In `rebalance` the loop's
  next pass revisits the demoted node, and the pass after it, at the pivot,
  repairs the pivot's height; in `rebalance_delete` the next pass is at the
  pivot.
  `Insertion.PivotNotPromoted` shows that this repair is never counted as a
  promotion.
- Join chooses the orientation by comparing the root key of `self` with the
  separator (line 633). It does not compare maximal keys.

## Model

| member | source | states |
|---|---|---|
| AvlNode.FixHeight | AVLTree.py:167-168 | a virtual node is unchanged; a real node keeps its entry and children; with consistent children the result has consistent heights, and an already consistent node is left as it is |
| AvlNode.CachedHeightIsTrue | AVLTree.py:159-161 | when every cache holds one more than the larger child's cache, the cached height equals the structural height of the tree |
| AvlNode.SortedIffSearchOrdered | AVLTree.py:307-313 | the in-order list is strictly sorted exactly when every node's key separates its left subtree's keys from its right subtree's, which is the order the descent relies on |
| AvlNode.NodeAt | AVLTree.py:229-243 | a node is found for `k` exactly when some entry has key `k`, and the node found holds `k` and belongs to the tree |
| AvlNode.KeysOfInOrder | AVLTree.py:737-755 | the keys listed by the in-order walk are exactly the keys of the real nodes |
| Rotation.RightRotate | AVLTree.py:380-395 | the rotation keeps the in-order list, lifts the left child above the rotated node, and keeps the children's heights consistent |
| Rotation.LeftRotate | AVLTree.py:404-419 | mirror of the right rotation: in-order list kept, right child lifted above the rotated node |
| Rotation.Rotate | AVLTree.py:359-371 | a single or double rotation at a node of balance factor 2 or -2 keeps the in-order list |
| Rotation.Rebalanced | AVLTree.py:543-549 | one pass of the delete-side loop leaves a consistent node with a balanced root and the same entries; the height drops by one after a rotation unless the heavy child was level; the subtree stays balanced under the corrected dispatch, or whenever the heavy child leans |
| Rotation.RebalanceLeftHeavy | AVLTree.py:359-365 | at balance factor 2 the chosen rotation is possible, yields consistent heights and a balanced root, and keeps balance except for the as-written double rotation on a level left child |
| Rotation.RebalanceRightHeavy | AVLTree.py:366-371 | mirror at balance factor -2 |
| Rotation.DoubleRightCase | AVLTree.py:361-363 | the double rotation at a left-heavy node is balanced when the left child leans right, and leaves the result's height one lower except for a level left child |
| Rotation.DoubleLeftCase | AVLTree.py:367-369 | mirror for a right-heavy node |
| Insertion.InsertRec | AVLTree.py:291-328 | inserting an absent key keeps the tree AVL, places the entry between the smaller and the larger keys, grows the height by at most one, reports one edge per step of the descent, and counts one promotion for each level node (balance factor 0) at the bottom of the descent, which are exactly the ancestors that grow; that is every node on the descent exactly when the whole tree grew |
| Insertion.InsertStep | AVLTree.py:339-350 | one pass of the insert-side loop agrees with the delete-side pass and counts one promotion exactly when the node's cached height grows |
| Insertion.PivotNotPromoted | AVLTree.py:343-349 | after a rotation the pivot's stale height is never below the recomputed one, so the later pass at the pivot counts no promotion there |
| Insertion.GrowLeftStep | AVLTree.py:339-350 | when the left subtree grows by at most one, the pass keeps the node AVL, and a promotion is counted exactly when the node grows |
| Insertion.InsertLeaf | AVLTree.py:296-303 | the first insertion gives a single leaf of height 0 with no edge and no promotion |
| Deletion.Leftmost | AVLTree.py:595-599 | the walk down left children ends at a node without a real left child that holds the first entry |
| Deletion.Successor | AVLTree.py:595-599 | the successor of a node with a real right child holds the entry right after the node's own in the in-order list |
| Deletion.DetachMin | AVLTree.py:516-518 | removing the successor from the right subtree drops exactly its first entry, lowers the height by at most one, and keeps heights consistent and the root balanced |
| Deletion.DeleteAt | AVLTree.py:491-527 | deleting a node at its position, in the leaf, one-child and two-children cases, leaves exactly the entries of its two subtrees, with consistent heights, a balanced root and the height lowered by at most one |
| Deletion.DeleteKey | AVLTree.py:487-527 | deleting the node holding `k` removes exactly that entry and keeps the other entries in order, keeps heights consistent and the root balanced, lowers the height by at most one, and keeps every node balanced under the corrected dispatch |
| Deletion.ShrinkLeftStep | AVLTree.py:543-549 | a pass at a node whose left subtree lost at most one level leaves a height within one of the old one |
| Deletion.UpdateMax | AVLTree.py:576-583 | the walk down right children yields the last entry of the in-order list, and none exactly for an empty tree |
| TreeJoin.JoinLeftSpine | AVLTree.py:637-649 | walking the taller right-hand tree's left spine and attaching the separator there gives the smaller tree's entries, the separator, then the larger tree's, with height between the taller height and one more |
| TreeJoin.JoinRightSpine | AVLTree.py:651-663 | mirror when the left-hand tree is taller |
| TreeJoin.JoinTrees | AVLTree.py:614-669 | joining through a separator lists the smaller tree's entries, the separator, then the larger tree's; the result is a search tree with consistent heights and a balanced root, whose height is the taller input's or one more; every node is balanced under the corrected dispatch |
| TreeJoin.JoinIntoLarge | AVLTree.py:616-622 | with an empty smaller side, inserting the separator into the other tree is a correct join |
| TreeJoin.JoinIntoSmall | AVLTree.py:624-627 | with an empty larger side, inserting the separator into the other tree is a correct join |
| TreeSplit.SplitTree | AVLTree.py:709-728 | splitting at a present key gives two AVL trees holding exactly the entries below and above the key, each in order |
| TreeSplit.SplitLeftLevel | AVLTree.py:718-722 | splitting in the left subtree and joining the upper half with the root and the right subtree gives the split of the whole tree |
| TreeSplit.SplitRightLevel | AVLTree.py:724-728 | mirror for a split point in the right subtree |
| Finger.SearchStop | AVLTree.py:259-261 | the finger search's climb stops at the root or at a spine node whose key is not above `k`, and every spine node it passed has a larger key |
| Finger.InsertStop | AVLTree.py:441-443 | the finger insertion's climb also stops below a parent whose key is not above `k`, and every spine node it passed has a larger key |
| Finger.ClimbedPosition | AVLTree.py:255-275 | the spine node where a climb stops, when its upper neighbour's key is below `k`, holds the same node for `k` as the root, at depth reduced by its spine index |
| Finger.ClimbedPath | AVLTree.py:255-275 | from such a stop the root's descent for `k` is that many right steps followed by the stop's own descent |
| Finger.SearchStopPosition | AVLTree.py:255-275 | where the finger search's climb stops, searching finds exactly what a search from the root finds, with depth and descent shortened by the stop's depth |
| Finger.InsertStopPosition | AVLTree.py:441-453 | for an absent key, the finger insertion's descent from its stop is the tail of the descent from the root, after the right steps to the stop |
| Dictionary.Empty | AVLTree.py:214-217 | a new dictionary is valid and holds no items |
| Dictionary.Descend | AVLTree.py:231-243 | the search loop from a real node finds the node holding `k` exactly when `k` is there, adding one edge per level walked; a miss gives back the last edge |
| Dictionary.Search | AVLTree.py:229-243 | the node found is the one holding the key, found by looking everywhere, so one comes back exactly when the key is present; the edge count is its depth plus one, the descent length on a miss, and 1 for an empty dictionary |
| Dictionary.FingerSearch | AVLTree.py:255-275 | on any consistent dictionary, balanced or not, finds the same node as a search from the root, and raises exactly when the dictionary is empty and has no maximum to start from; the edge count is one plus the climb plus the depth below the stop, or the climb plus the descent below the stop on a miss |
| Dictionary.SearchClimb | AVLTree.py:259-261 | the climb loop stops where `Finger.SearchStop` says and counts one edge per step |
| Dictionary.Insert | AVLTree.py:291-328 | an absent key enters the items at its sorted place; the dictionary stays valid; the size grows by one; the maximum becomes the new entry exactly when its key is larger than the old maximum's or there was none; the node returned holds the new entry; the edge count is the descent length; the promotion count is the number of level nodes at the bottom of the descent, and equals the edge count exactly when the tree grew taller |
| Dictionary.FingerInsert | AVLTree.py:435-468 | same result and promotion count as insertion from the root; the edge count is the climb plus the descent below the stop, which is the tail of the descent from the root, and 0 for an empty dictionary |
| Dictionary.InsertClimb | AVLTree.py:441-443 | the climb loop stops where `Finger.InsertStop` says and counts one edge per step |
| Dictionary.MaxAfterInsert | AVLTree.py:324 | after placing a new entry, the last entry is the new one exactly when its key exceeds the old last key, or there was none |
| Dictionary.Delete | AVLTree.py:487-534 | deleting no node or a virtual node changes nothing; otherwise exactly the node's entry leaves the items, the size drops by one, and the maximum is cleared exactly when nothing is left and otherwise is the last remaining entry; heights stay consistent and the root balanced, and the corrected dispatch keeps the dictionary valid |
| Dictionary.MaxAfterDelete | AVLTree.py:533-534 | deleting an entry other than the last keeps the last entry, so the cached maximum stays right without a walk |
| Dictionary.Join | AVLTree.py:614-669 | for either orientation the items are the smaller side's, the separator, then the larger side's; the size is both sizes plus one; the maximum is the larger side's, or the separator when that side is empty; the corrected dispatch keeps the result valid |
| Dictionary.InsertSeparator | AVLTree.py:616-627 | a join with an empty side inserts the separator at the front or the back of the other side's items, and sets the maximum accordingly |
| Dictionary.JoinAsWritten | AVLTree.py:614-676 | as written, the join raises exactly when both sides are non-empty and `self` holds the larger keys; every other call completes, with the rotation dispatch as written, giving the joined items, consistent caches and the summed size plus one |
| Dictionary.JoinReversedRaises | AVLTree.py:671-676 | two valid one-entry dictionaries, the first holding the larger key, satisfy the join's precondition and reach the raising branch |
| Dictionary.Split | AVLTree.py:691-728 | splitting at a node gives two AVL trees holding exactly the smaller and the larger entries in order, around the node's own entry, each with its maximum recomputed |
| Dictionary.ToArrayRec | AVLTree.py:751-755 | the recursive walk keeps what was collected and appends entries carrying exactly the keys of the subtree's real nodes, in ascending key order whenever every node separates its subtrees' keys |
| Dictionary.AvlToArray | AVLTree.py:737-740 | the exported list is the items; for a consistent dictionary it is strictly ascending, as long as the cached size, and ends with the cached maximum |
| Laws.SplitThenJoin | AVLTree.py:691-728 | under the corrected dispatch, splitting at a node and joining the halves back through its entry gives the original entries |
| Laws.JoinThenSplit | AVLTree.py:614-669 | under the corrected dispatch, joining two trees through a separator and splitting at the separator gives back both trees' entries |
| Laws.DeleteThenReinsert | AVLTree.py:487-534 | under either dispatch, deleting a key leaves a search tree with consistent heights and a balanced root, without the key, and placing the entry back at its sorted position restores the original entries; under the corrected dispatch the result is an AVL tree, and inserting the entry into it restores the original entries |
| Laws.InsertThenDelete | AVLTree.py:291-328 | under either dispatch, inserting an absent key and deleting it again gives back the original entries |
| Findings.DeleteAsWrittenUnbalances | AVLTree.py:366-369 | on an eight-key AVL tree, deleting key 1 with the dispatch as written leaves node 7 at balance factor -2 |
| Findings.JoinAsWrittenUnbalances | AVLTree.py:360-363 | joining two AVL trees through 3 with the dispatch as written leaves node 3 at balance factor 2 |

## Left out

- Parent links, node identity and `fix_root` (lines 476-478) are not modelled.
  The model rebuilds the path from the root, so the root is always the
  top of the result and no re-rooting is needed.
- A node is identified by its key: keys are distinct in a search tree.
  `Dictionary.Delete` takes the node and deletes by its key. The node
  returned by `Dictionary.Insert` is located by key in the new tree.
- The accessors (`get_left`, `get_key`, `set_height`, `max_node`, `size`,
  `get_root`, and similar) are fields of the datatypes.
- An empty dictionary (`root` is `None`) is modelled as a virtual root.
- The time-complexity notes are not modelled.
- Split's wrapper trees (lines 711-716) are left out, and the model splits
  detached subtrees instead. In the source, a wrapper takes the subtree
  root as both root and `max`, with size 0. Its nodes' parent links still
  point into the original tree. `update_max` (line 581) reads the right
  child of a virtual wrapper root, which has none. The model treats a
  virtual wrapper as empty, does not model the sizes of split results, and
  recomputes each half's maximum by the walk to the rightmost node.
- Dictionary.Split, TreeSplit.SplitTree, TreeSplit.SplitRightLevel,
  TreeSplit.SplitLeftLevel: split with the corrected join orientation and
  the corrected dispatch. As written, the inner join at line 727 raises
  whenever both of its sides are non-empty (see Findings). The inner join
  at line 721 is stated under the corrected dispatch; with the dispatch as
  written it can leave the upper half with a node out of balance, as the
  join in Findings does.
- Dictionary.Insert, Dictionary.FingerInsert, Dictionary.Delete,
  Dictionary.Join: modelled only on valid (balanced) dictionaries. After a
  deletion or join under the dispatch as written has left a node out of
  balance, the source keeps operating on that tree, and a later rotation
  there can read a child of a virtual node and raise. Sequences of
  operations that continue from such an unbalanced dictionary are not
  modelled.
- Laws.DeleteThenReinsert: re-insertion through `Insertion.InsertRec` is
  stated only under the corrected dispatch. The as-written deletion can
  leave a node out of balance (see Findings), and insertion is modelled
  only on AVL trees. Under the as-written dispatch the law is stated on the
  entries: placing the deleted entry back at its sorted position restores
  the original list.
- Laws.SplitThenJoin and Laws.JoinThenSplit: stated under the corrected
  dispatch only, for the same reason.
- Dictionary.FingerSearch: the source raises on an empty dictionary by
  calling a method on a missing maximum (line 259); the model returns
  `Raised` there and does not model the exception's type.
- Deletion.DeleteKey: under the as-written dispatch only a balanced root is
  proved, not balance at every node, because the source does not keep it
  (see Findings).
- TreeJoin.JoinTrees: under the as-written dispatch only a balanced root is
  proved, for the same reason.
- Dictionary.Delete: keeps the dictionary valid only under the corrected
  dispatch. Under the as-written one only consistency and a balanced root
  are promised.
- Dictionary.Join: the same as `Dictionary.Delete`.

## Findings

| source | as written | input that shows it | evidently intended | confidence | as-written member | corrected member |
|---|---|---|---|---|---|---|
| AVLTree.py:359-371 | `rotate` uses a double rotation whenever the heavy child's balance factor is not exactly 1 (or -1), including when the heavy child is level | deleting key 1 from the AVL tree with root 3, left subtree 2 over 1, and right subtree 7 over (5 over 4) and (9 over 8); or joining 1..2 with 4..7 through 3 | a single rotation when the heavy child is level, which keeps every node balanced | not executed | Findings.DeleteAsWrittenUnbalances | Deletion.DeleteKey |
| AVLTree.py:676 | after the reversed join, `self.tree_size = tree2.get_size()` calls a method the tree does not have (it has `size`, line 774), so the join raises after both trees were already changed | `d1` holding only key 5, `d2` holding only key 1, separator 3 | read the size with `tree2.size()` | not executed | Dictionary.JoinAsWritten | Dictionary.Join |
