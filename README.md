# AVL tree list

A model of `AVLTreeList.py`: a list of values stored in an AVL tree. In-order
position in the tree is list index. Every real node caches the size and the
height of its subtree. Absent children are *virtual* nodes whose value is
`None`.

The model has three layers:

- `Trees` (trees.dfy) holds the node class `AVLNode` with the fields of the
  source. It also holds the value `Tree` that records the shape a root
  pointer stands for: which node object sits where, and what each real node
  holds. A zipper of `Frame`s stands for the path from a node up to the root
  that the repair walks climb through parent links.
- `Links` (links.dfy) says when the mutable fields of one node agree with its
  ghost subtree: links, parent pointers, cached size and cached height.
  `AVLTreeLists` (avl_tree_list.dfy) is the class `AVLTreeList`. Its `Valid()`
  states that the node objects form an AVL tree without shared nodes, that
  every node agrees with its subtree, and that `size` counts the items. The
  read-only operations (`select`, `rank`, `retrieve`, `predecessor`,
  `successor`, `listToArray`, `search`, ...) and the pointer-level
  `left_rotate` and `right_rotate` run on the heap.
- `Balance` (balance.dfy) and `Updates` (updates.dfy) model the operations
  that restructure the tree on `Tree` values: `rotate`, `insert`, `delete`,
  `delete_root`, `concat`, `fix_tree_insert` and `fix_tree_delete`. A list
  is a `TreeList` value (root and size). Each walk is a method with the
  source's loop; the loop invariant carries the AVL condition on every
  level above the node it has reached. `Sorting` (sorting.dfy) models
  `sort` and `merge_sort` on an array of integers.

What is proved:

- every operation keeps the AVL invariant;
- `insert` and `delete` put or remove exactly the item at the index;
- `concat` yields the two lists one after the other and returns the height
  difference;
- the walks return the number of single rotations they perform. Each walk
  also returns a ghost record of the subtrees it rotated, and its count is
  the sum of `RotationCount` over that record. The contracts of
  `FixTreeInsert`, `FixTreeDelete`, `Grow` and `Splice` tie the record to
  the walk (`Along`): each recorded subtree has the head, nodes and items of
  the subtree the walk reaches at one level of its path, at strictly rising
  levels. So `fix_tree_delete` rotates at most once per level and
  `fix_tree_insert` at most once in all (count at most 2). `Insert`,
  `DeleteBelow` and `Delete` state what follows for the list: every
  recorded subtree holds only nodes of the new tree, and a contiguous run of
  its items;
- at every subtree in that record for `insert` and `delete`, `rotate` as
  written (with the slip of line 293, see "## Findings") chooses the same
  rotations as the corrected choice `Rebalance`. This rests on walk
  invariants proved at every step: `Leaning` for the insert walk
  (`LeaningStep`, `InsertClimb`) and `Settled` for the delete walk
  (`SettledStart`, `SettledStep`, `SettledRevisit`), with
  `AsWrittenWhenLeaning`. `concat` is not covered by this: on the input of
  "## Findings" it reaches a node where the two differ;
- the queries answer in terms of the list the tree stands for;
- `sort` returns a sorted permutation of the items.

## Model

| member | source | states |
|---|---|---|
| Trees.AVLNode.constructor | AVLTreeList.py:13-20 | a new node has no links, height -1, size 1 and balance factor 0 |
| Updates.CreateVirtualChildren | AVLTreeList.py:189-195 | the node becomes a leaf holding the value, with two new and distinct virtual children |
| Balance.RotateLeft | AVLTreeList.py:298-318 | `left_rotate` on values: the right child becomes the root of the subtree and the node its left child, taking over the inner grandchild; its properties are stated by `RotateLeftKeepsOrder` |
| Balance.RotateRight | AVLTreeList.py:321-341 | `right_rotate` on values, the mirror image; its properties are stated by `RotateRightKeepsOrder` |
| Balance.RotateLeftKeepsOrder | AVLTreeList.py:298-318 | a left rotation keeps the items and nodes in the same order, the node set, the size and the absence of shared nodes |
| Balance.RotateRightKeepsOrder | AVLTreeList.py:321-341 | the same for a right rotation |
| Balance.SingleLeftBalances | AVLTreeList.py:280-283 | at balance factor -2 with a right child leaning right or level, one left rotation gives an AVL tree, one level lower unless the child was level |
| Balance.DoubleLeftBalances | AVLTreeList.py:284-287 | at balance factor -2 with a right child leaning left, a right rotation of the child then a left rotation give an AVL tree one level lower |
| Balance.DoubleRightBalances | AVLTreeList.py:289-292 | the mirror image: balance factor 2 and a left child leaning right |
| Balance.SingleRightBalances | AVLTreeList.py:293-295 | balance factor 2 with a left child leaning left or level (the test as intended): one right rotation gives an AVL tree |
| Balance.Rebalance | AVLTreeList.py:275-295 | the rotations `rotate` makes at a node two out of balance, with the test of line 293 as intended: a single rotation when the heavy child leans the same way or is level, a double one when it leans the other way; its properties are stated by `RebalanceRestores` and `RebalanceLevels` |
| Balance.RotationCount | AVLTreeList.py:275-295 | the value `rotate` returns: 1 for a single rotation, 2 for a double one |
| Balance.RebalanceRestores | AVLTreeList.py:275-295 | a node two out of balance over AVL subtrees becomes an AVL tree with the same items, nodes and order; its height drops by one unless the heavy child was level; `rotate` returns 1 or 2 |
| Balance.RebalanceLevels | AVLTreeList.py:275-295 | after `rotate`, a node whose heavy child leaned is level and one level lower; one whose heavy child was level keeps its height |
| Balance.RotateAsWritten | AVLTreeList.py:275-296 | `rotate` exactly as written, line 293 included: the rotated subtree and the count, or nothing when no test matches |
| Balance.RotateAsWrittenAgrees | AVLTreeList.py:275-295 | `rotate` as written picks the same rotations as `Rebalance`, except when the left side is two higher, the left child is level and the right child leans: then it returns nothing |
| Balance.RotateAsWrittenFallsThrough | AVLTreeList.py:288-295 | a node with the heights and balance factors `concat` produces on the input of "## Findings": its subtrees are AVL trees, the code as written returns nothing, and `Rebalance` balances it |
| Balance.AsWrittenWhenLeaning | AVLTreeList.py:288-295 | at a node whose heavy child leans, or whose light child is level, `rotate` as written returns the same rotations and count as `Rebalance` |
| Balance.Process | AVLTreeList.py:425-428 | what `fix_tree_delete` does at one node: `rotate` when its balance factor is 2 or -2, nothing otherwise |
| Balance.ProcessRestores | AVLTreeList.py:425-428 | one step of `fix_tree_delete` on a node whose subtrees are AVL trees differing in height by at most two gives an AVL tree with the same items, at most one level lower |
| Balance.PlugBalanced | AVLTreeList.py:254-272 | a subtree of an AVL tree is an AVL tree, and each level of the path above it is balanced given the height below |
| Balance.InsertWalkStep | AVLTreeList.py:256-272 | one step up in `fix_tree_insert` keeps the walk's invariant: the node left behind is balanced, and the search for a rotation stops once a height is unchanged |
| Balance.InsertWalkRevisit | AVLTreeList.py:266-268 | the rotation in `fix_tree_insert` balances the node and restores the height it had before the insertion |
| Balance.LeaningStep | AVLTreeList.py:256-268 | while `fix_tree_insert` may still rotate, a subtree that grew leaves its parent, if out of balance, heavy on the grown side with a leaning child |
| Balance.InsertWalkDone | AVLTreeList.py:269-270 | at the root the insert walk leaves an AVL tree at most one level higher than before |
| Balance.DeleteWalkStep | AVLTreeList.py:421-431 | one step up in `fix_tree_delete` keeps the walk's invariant after a rotation where needed |
| Balance.DeleteWalkRevisit | AVLTreeList.py:427-428 | a rotation in `fix_tree_delete` keeps the walk's invariant |
| Balance.SettledStart | AVLTreeList.py:358-401 | the removed node gives way to a level subtree, so at its parent a subtree that lost a level is level, and the lower child of a node out of balance is level |
| Balance.SettledStep | AVLTreeList.py:421-431 | climbing one level after a deletion keeps that: a subtree that lost a level is level once processed |
| Balance.SettledRevisit | AVLTreeList.py:427-428 | the rotated subtree of the delete walk keeps it too |
| Balance.DeleteWalkDone | AVLTreeList.py:429-430 | at the root the delete walk leaves an AVL tree, at most one level lower after a deletion |
| Balance.AlongSnoc | AVLTreeList.py:427-428 | a subtree the walk rotates at one level extends its record of rotations past that level |
| Balance.AlongLength | AVLTreeList.py:419-431 | a record of rotations taken one per level, at strictly rising levels below `n`, has at most `n` entries |
| Balance.ReachedSegment | AVLTreeList.py:419-431 | the subtree the walk reaches at a level holds only nodes of the whole tree and a contiguous run of its items |
| Balance.AlongSegments | AVLTreeList.py:254-272 | every subtree in a record of rotations holds only nodes of the whole tree and a contiguous run of its items |
| Balance.LevelClimb | AVLTreeList.py:429-430 | a subtree with the nodes and items of the one reached at a level, filled into its parent, is the subtree of the next level |
| Updates.InsertBegin | AVLTreeList.py:254-256 | the insert walk starts at the new leaf, level 0, looking for a rotation, with nothing rotated |
| Updates.InsertRotation | AVLTreeList.py:266-268 | the rotation of `fix_tree_insert` happens at a node whose heavy child leans, so `rotate` as written makes it; the walk goes on without rotating, the items and nodes unchanged, and records the subtree it rotated as the one it reached at that level |
| Updates.InsertClimb | AVLTreeList.py:256-272 | one step up in `fix_tree_insert` keeps its invariant: the parent of a grown subtree is heavy on a leaning child, and while a rotation is possible the walk holds the subtree of the next level |
| Updates.InsertDone | AVLTreeList.py:269-270 | at the root the insert walk leaves an AVL tree with the items and nodes of the tree with the leaf, at most one level higher |
| Updates.FixTreeInsert | AVLTreeList.py:254-272 | from a new leaf, the walk leaves an AVL tree with the same items and nodes, at most one level higher; it rotates at most once, at the subtree it reached at one level of the path, where `rotate` as written chooses the same rotations, and returns their number (at most 2) |
| Updates.FixTreeDelete | AVLTreeList.py:419-431 | from the node it is given, the walk leaves an AVL tree with the same items and nodes (at most one level lower after a deletion); it returns the sum of the single rotations at the subtrees it rotated, each the subtree it reached at one level of the path, at most one per level; after a deletion `rotate` as written chooses the same rotations at each of them |
| Updates.DeleteStart | AVLTreeList.py:419-421 | the delete walk starts at the node it is given, level 0, with nothing rotated |
| Updates.DeleteRotation | AVLTreeList.py:427-428 | a rotation of `fix_tree_delete` keeps the walk's invariant, adds its single rotations to the count and the rotated subtree to the record |
| Updates.DeleteClimb | AVLTreeList.py:429-431 | one step up in `fix_tree_delete` keeps the walk's invariant, one level higher |
| Updates.DeleteDone | AVLTreeList.py:429-430 | at the root the delete walk has repaired the tree, with at most one rotation per level |
| Updates.Grow | AVLTreeList.py:235-248 | the virtual node at index `i` takes the value, and the repaired tree holds the item inserted at `i`; the rotations are recorded along the path above the new leaf |
| Updates.Insert | AVLTreeList.py:225-250 | for `0 <= i <= length` the new list is well formed, one longer, holds `val` at index `i` with the other items in order, is at most one level higher; the count is that of at most one rotation (0 to 2), one `rotate` as written also makes, at a subtree whose nodes are in the new list and whose items are a run of it |
| Updates.DeleteRoot | AVLTreeList.py:406-415 | a root with a virtual child gives way to its other child, or to nothing when it is the only item; the items are those of both children |
| Updates.Splice | AVLTreeList.py:358-403 | the parent of the removed node takes the level subtree that replaces it, and `fix_tree_delete` from there leaves an AVL tree at most one level lower, with the items of the spliced tree; its count is that of the rotations at the subtrees it reached on the way up from the parent, one per level at most, each one `rotate` as written also makes |
| Updates.RootGone | AVLTreeList.py:355-357 | removing the root through `delete_root` removes exactly the item at its index and leaves an AVL tree at most one level lower |
| Updates.SuccessorLift | AVLTreeList.py:390-401 | a node with two real children that takes its successor's value, with the successor spliced out, holds the items of both children in order |
| Updates.Replacement | AVLTreeList.py:358-401 | each branch of `delete` below the root puts in place of the deleted subtree the items of its two children, and sets up the start of `fix_tree_delete` |
| Updates.DeleteBelow | AVLTreeList.py:358-401 | deleting a node that is not the root, or that has two real children, removes exactly its item and leaves an AVL tree at most one level lower; every rotated subtree holds only nodes of that tree and a run of its items |
| Updates.Delete | AVLTreeList.py:351-403 | an empty list is left as it is and -1 is returned; otherwise the item at index `i` is removed, the list stays well formed and is one shorter, at most one level lower, and the count is the sum of the single rotations made, each of them one `rotate` as written also makes, at a subtree whose nodes are in the new list and whose items are a run of it |
| Updates.JoinRight | AVLTreeList.py:593-615 | joining a tree, an item and a tree at least as high gives an AVL tree holding the left items, the item and the right items in order |
| Updates.JoinLeft | AVLTreeList.py:622-644 | the same for a left tree higher than the right one |
| Updates.TakeLast | AVLTreeList.py:586-587 | retrieving and deleting the last item splits the list into the rest and that item |
| Updates.TakeFirst | AVLTreeList.py:617-618 | retrieving and deleting the first item splits the list into that item and the rest |
| Updates.InsertLast | AVLTreeList.py:619-621 | inserting at the index equal to the length appends the item: the list stays well formed and is one longer |
| Updates.ConcatHigherRight | AVLTreeList.py:585-615 | when the right list is at least as high, the result is well formed and holds the left items, then the right ones |
| Updates.ConcatHigherLeft | AVLTreeList.py:616-644 | the same when the left list is higher |
| Updates.Concat | AVLTreeList.py:569-646 | the result is a well-formed list of both lists' items in order, of the summed size; it returns the absolute height difference before the join, an empty list counting as -1 |
| AVLTreeLists.AVLTreeList.constructor | AVLTreeList.py:124-126 | a new list is valid and empty |
| AVLTreeLists.AVLTreeList.ValidSize | AVLTreeList.py:478-479 | the size field counts the items; the root caches the size and height of the whole tree |
| AVLTreeLists.AVLTreeList.Empty | AVLTreeList.py:201-202 | true exactly when the list has no items |
| AVLTreeLists.AVLTreeList.Length | AVLTreeList.py:478-479 | the number of items |
| AVLTreeLists.AVLTreeList.Select | AVLTreeList.py:143-152 | the node of rank `k` within the subtree, and its value is the item at that position; no node when the list is empty |
| AVLTreeLists.AVLTreeList.Retrieve | AVLTreeList.py:212-213 | the item at index `i` |
| AVLTreeLists.AVLTreeList.First | AVLTreeList.py:438-441 | the first item, or `None` for an empty list |
| AVLTreeLists.AVLTreeList.Last | AVLTreeList.py:448-451 | the last item, or `None` for an empty list |
| AVLTreeLists.AVLTreeList.GetRoot | AVLTreeList.py:666-669 | no root exactly when the list is empty; otherwise it returns the `root` field, the node heading the whole tree, which has no parent and holds the item whose index is the size of its left subtree |
| AVLTreeLists.AVLTreeList.Rank | AVLTreeList.py:130-139 | the 1-based position of the node in the list |
| AVLTreeLists.AVLTreeList.MaxNode | AVLTreeList.py:157-161 | the last node in order of the subtree |
| AVLTreeLists.AVLTreeList.MinNode | AVLTreeList.py:174-178 | the first node in order of the subtree |
| AVLTreeLists.AVLTreeList.ClimbLeft | AVLTreeList.py:162-169 | climbing while coming from a left child ends at the node just before the subtree, or at nothing when the subtree starts the list |
| AVLTreeLists.AVLTreeList.ClimbRight | AVLTreeList.py:179-186 | climbing while coming from a right child ends at the node just after the subtree, or at nothing when the subtree ends the list |
| AVLTreeLists.AVLTreeList.Predecessor | AVLTreeList.py:156-169 | the node at the previous index, or nothing for the first |
| AVLTreeLists.AVLTreeList.Successor | AVLTreeList.py:173-186 | the node at the next index, or nothing for the last |
| AVLTreeLists.AVLTreeList.ListToArrayRec | AVLTreeList.py:466-472 | appends the items of the subtree, in order, to the accumulated list |
| AVLTreeLists.AVLTreeList.ListToArray | AVLTreeList.py:458-462 | the items of the list in order |
| AVLTreeLists.AVLTreeList.Search | AVLTreeList.py:655-660 | -1 exactly when the value is absent; otherwise the first index holding it |
| AVLTreeLists.AVLTreeList.LeftRotate | AVLTreeList.py:298-318 | the right child takes the node's place under its parent (or as the root), the node becomes its left child and takes its inner child, and both cache sizes and heights recomputed from their children |
| AVLTreeLists.AVLTreeList.RightRotate | AVLTreeList.py:321-341 | the mirror image of `LeftRotate` |
| AVLTreeLists.AVLTreeList.RotateLeftAt | AVLTreeList.py:298-318 | on a node that agrees with its subtree, `left_rotate` leaves the nodes agreeing with the rotated subtree value |
| AVLTreeLists.AVLTreeList.RotateRightAt | AVLTreeList.py:321-341 | the same for `right_rotate` |
| Sorting.MergeSort | AVLTreeList.py:498-523 | the array ends sorted and holds the same items |
| Sorting.Merge | AVLTreeList.py:505-523 | merging two sorted halves fills the array with a sorted arrangement of their items |
| Sorting.MergeHeads | AVLTreeList.py:508-515 | the first loop keeps the merged prefix sorted, holding the items taken so far and no larger than what remains |
| Sorting.CopyLeft | AVLTreeList.py:516-519 | the second loop copies the rest of the left half and keeps that invariant |
| Sorting.CopyRight | AVLTreeList.py:520-523 | the third loop does the same for the right half |
| Sorting.MergeStep | AVLTreeList.py:509-514 | taking the smaller head (the left one on a tie) keeps the merge invariant |
| Sorting.MergedAll | AVLTreeList.py:505-523 | once both halves are used up, the merged items are sorted and are exactly those of the two halves |
| Sorting.Sort | AVLTreeList.py:486-496 | the result is a well-formed list whose items are sorted and are the items of the original list |

## Left out

- `permutation` and `build_tree_from_list`: randomness; the builder serves only `permutation`.
- The getters, setters and `isRealNode` of `AVLNode`: the model reads and writes the fields directly.
- Updates.Insert, Updates.Delete and Updates.Concat act on tree values, not on the heap.
  - They do not model the in-place pointer updates, the parent links, or the cached `size`, `height` and `bf` fields the walks rewrite.
  - On values these fields are the functions `Size`, `Height` and `BF` of each subtree.
  - `AVLTreeList.Value` and `ValidValue` tie a valid heap list to such a value.
- Balance.Rebalance models `rotate` on values; the heap version is the pair of pointer-level rotations `LeftRotate` and `RightRotate`.
  - The walks (`FixTreeInsert`, `FixTreeDelete`, and through them `Insert`, `Delete`, `JoinRight`, `JoinLeft`, `Concat`) use `Rebalance`, the choice with the test of line 293 corrected (see "## Findings").
  - For `insert` and `delete` this changes nothing: their contracts state that `rotate` as written chooses the same rotations at every node they rotate.
  - `Concat` therefore models the intended program. On the input of "## Findings" it returns the joined list, where the code as written raises a `TypeError`.
- Updates.Concat: what is left in `lst` afterwards is not modelled.
  - It returns the joined list as a new value and requires the two lists to share no node.
  - The source leaves `lst` changed (one item fewer, or its nodes now inside `self`).
  - Concatenating a list with itself is outside the model.
- Updates.FixTreeDelete: the count is stated through the ghost record of rotated subtrees the walk returns.
  - The contract ties each recorded subtree to one level of the path (its head, nodes and items), at strictly rising levels.
  - It does not say which levels were out of balance, nor that no other level was.
- Updates.FixTreeInsert: the same holds of its one recorded rotation.
- Updates.Splice: the same holds of its record, which is that of `fix_tree_delete` from the parent of the removed node.
- Updates.Grow: the same holds of its record, which is that of `fix_tree_insert` from the new leaf.
- Updates.DeleteBelow: its contract no longer names the path the walk climbed.
  - It states only that each recorded subtree holds nodes of the new tree and a contiguous run of its items.
- Updates.Delete: the same holds of its record as for `DeleteBelow`, on the new list.
- Updates.Insert: the same holds of its record as for `DeleteBelow`, on the new list.
- AVLTreeLists.AVLTreeList.Predecessor requires a real left child when the node is the root; `Successor` requires a real right child.
  - Without one the source dereferences `None` (the root has no parent).
- AVLTreeLists.AVLTreeList.Retrieve and Select require an index in range, as the source's precondition states; outside it the source fails on a virtual node.
- AVLTreeLists.AVLTreeList.RotateLeftAt and RotateRightAt state the rotated subtree and the links around it.
  - Their field-level `modifies` clause bounds what else changes.
  - They do not restate that every other node still agrees with its subtree.
- Sorting.Sort, Sorting.MergeSort, Sorting.Merge, Sorting.MergeHeads, Sorting.CopyLeft, Sorting.CopyRight, Sorting.MergeStep and Sorting.MergedAll work on integers (`array<int>`, `seq<int>`) under their usual order.
  - The source's items are strings compared by Python's ordering.
  - It returns a list value rather than a new `AVLTreeList` object.
- The stale `bf` values that rotations leave in demoted nodes are not modelled: the source recomputes every balance factor it reads from heights.

## Findings

| source | as written | input that shows it | evidently intended | confidence | as-written member | corrected member |
|---|---|---|---|---|---|---|
| AVLTreeList.py:293 | `elif node.left.bf == 1 or node.right.bf == 0` | `concat` of a 7-item list (a perfect tree of height 2) with a 10-item list whose root has a perfect left subtree of height 2 and a right subtree of two nodes. The join makes the root's left child a level subtree of height 3. The root then has balance factor 2, a level left child and a leaning right child. `rotate` matches no case and returns `None`, and `rebalancing_amount += None` fails | `node.left.bf == 0`: a single right rotation when the left child is level | not executed | Balance.RotateAsWritten, shown by Balance.RotateAsWrittenFallsThrough | Balance.Rebalance, proved by Balance.RebalanceRestores |
