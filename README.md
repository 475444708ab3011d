# Binary tree exercise, modelled in Dafny

This project models `binary_tree.c`, a small module of recursive operations on
binary trees of C `int` values:

- `createNode`: allocate a childless node.
- `createTreeHelper` / `createTree`: build a tree from a level-order array, in
  which position `i` has its children at `2i+1` and `2i+2`, and `-1` or a
  position at or past `size` means "no node".
- `inorderTraversal` / `preorderTraversal`: print the node values.
- `trimTreeHelper` / `trimTree`: remove, bottom-up, the leaves whose
  root-to-leaf sum lies outside `[low, high]`. A parent left childless by this
  becomes a leaf and is judged the same way.
- `toBSTHelper` / `toBST`: top-down pruning with an inherited window
  `[minValue, maxValue]`. The root's window is `[INT_MIN, INT_MAX]`. A node
  outside its window is released together with its whole subtree.

The model has two layers.

- **Values** (`tree.dfy`, `create_tree.dfy`, `trim_tree.dfy`, `to_bst.dfy`).
  `datatype Tree = Nil | Node(left, value, right)` stands for a node pointer.
  Ownership in the source is strictly tree-shaped, so a pointer denotes exactly
  its subtree. Every operation is a function, and its properties are lemmas.
  `Int32` is the C `int` range. It is the type of node values and of the
  `low`/`high` bounds.
- **Heap** (`tree_nodes.dfy`). `class TreeNode` has the source's `data`,
  `left` and `right` fields. Each node also has ghost `Repr` (the objects it
  owns) and ghost `Model` (the value tree it stands for). `TrimTreeHelper` and
  `ToBstHelper` overwrite `left`/`right` in place, as the C code does. They
  return either the node itself or null, and each is proved to produce exactly
  the value-level function's result. Construction and the traversals exist on
  the heap too.

`scenarios.dfy` works through small concrete inputs.

The code and its comment disagree in one place; the model follows the code.
The comment at binary_tree.c:150-152 asks for left values *less than* and right
values *greater than* a node. The code passes `root->data` as the new bound
(lines 169-170) and rejects only values strictly outside the window (line 162).
So a child equal to its parent survives on either side. `IsBst` is therefore
the inclusive order, and `Scenarios.ToBstKeepsEqualChildren` shows equal
children being kept.

As a worked example, the level-order array
`[8,3,10,1,6,-1,14,-1,-1,4,7,-1,-1,-1,13]` builds 9 nodes. Position 14
(value 13) is the right child of position 6 (value 14), so the in-order output
is `1 3 4 6 7 8 10 14 13`. That is not sorted, and `toBST` drops 13
(`Scenarios.LevelOrderExample`, `InorderExample`, `ToBstExample`).

## Model

| member | source | states |
|---|---|---|
| `BinaryTree.CreateNode` | binary_tree.c:15-36 | the new node is a leaf holding `data`, so the tree has one node and one value |
| `BinaryTree.Inorder` | binary_tree.c:41-50 | the in-order output has one entry per node |
| `BinaryTree.Preorder` | binary_tree.c:53-62 | the pre-order output has one entry per node and starts with the root's value |
| `BinaryTree.TraversalsPermute` | binary_tree.c:41-62 | each traversal prints the multiset of node values exactly, so the two outputs are permutations of each other |
| `BinaryTree.InorderSortedIffBst` | binary_tree.c:41-50 | the in-order output is sorted if and only if the tree is in (inclusive) search-tree order |
| `LevelOrder.CreateTreeHelper` | binary_tree.c:86-101 | the subtree for a position is absent exactly when the position is at or past `size` or holds -1; otherwise its node holds that entry, and its left and right children are present exactly when positions `2i+1` and `2i+2` are; `CreateTreeShape`, `CreateTreeNoSentinel` and `SizeIsBuiltIndices` state the rest |
| `LevelOrder.CreateTree` | binary_tree.c:86-105 | the result is absent exactly when `size <= 0` or `arr[0] == -1`; otherwise the root holds `arr[0]`; no node holds -1; the tree has at most `size` nodes |
| `LevelOrder.CreateTreeShape` | binary_tree.c:86-101 | following a path from position `i` reaches the subtree built at that path's array position (children at `2i+1`/`2i+2`) when every position above it holds a node, and nothing otherwise |
| `LevelOrder.CreateTreeNodeAt` | binary_tree.c:86-105 | the tree has a node at a path exactly when every array position on the path is in range and not -1; that node holds the entry at the path's position |
| `LevelOrder.AbsentHasNoDescendants` | binary_tree.c:89-91 | once a position is out of range or -1, no node is built at it or below it, whatever the array holds further down |
| `LevelOrder.CreateTreeNoSentinel` | binary_tree.c:89-98 | no node built from any position holds the value -1 |
| `LevelOrder.SizeIsBuiltIndices` | binary_tree.c:86-101 | each node comes from its own array position: the node count equals the number of positions turned into nodes |
| `LevelOrder.CreateTreeSize` | binary_tree.c:86-105 | the tree never has more nodes than the array has entries |
| `LevelOrder.CreateTreeComplete` | binary_tree.c:86-105 | an array with no -1 among its `size` entries builds exactly `size` nodes |
| `PathSumTrim.TrimTreeHelper` | binary_tree.c:116-139 | the result is a root-anchored, prefix-closed part of the input: surviving nodes keep their values and positions |
| `PathSumTrim.TrimLeavesInRange` | binary_tree.c:128-136 | every leaf of the result has its root-to-leaf sum in `[low, high]` |
| `PathSumTrim.TrimRemovesExactly` | binary_tree.c:116-139 | a subtree is removed if and only if none of its nodes has its root-to-node sum in range, so an out-of-range inner node survives while anything below it does |
| `PathSumTrim.TrimAt` | binary_tree.c:116-139 | what remains at any position is the trimming of the original subtree there, given the sum above it |
| `PathSumTrim.TrimIdempotent` | binary_tree.c:116-139 | trimming a trimmed tree again with the same bounds changes nothing |
| `PathSumTrim.TrimTree` | binary_tree.c:141-147 | from the root (sum 0): result embedded in the input, so no more nodes and no new values; leaves in range, absent exactly when no node's path sum is in range, and a fixed point of trimming |
| `BstPrune.ToBstHelper` | binary_tree.c:155-173 | the result is embedded in the input, is in search-tree order, and all its values lie in `[minValue, maxValue]` |
| `BstPrune.ToBst` | binary_tree.c:175-181 | the root of a non-empty tree is kept with its value; the result is embedded in the input (so no more nodes and no new values), in search-tree order, and its in-order output is sorted |
| `BstPrune.ToBstKeepsSearchTree` | binary_tree.c:155-173 | a tree already in search-tree order within its window is returned unchanged |
| `BstPrune.ToBstIdempotent` | binary_tree.c:175-181 | applying toBST to its own output changes nothing |
| `BstPrune.ToBstAt` | binary_tree.c:155-173 | what remains at a position is the pruning of the original subtree there under the window its ancestors give it, if every ancestor fit its own window; otherwise nothing |
| `BstPrune.ToBstDropsWholeSubtree` | binary_tree.c:161-166 | a node outside its inherited window is removed together with every node below it |
| `TreeNodes.TreeNode.constructor` | binary_tree.c:15-36 | a fresh, valid node holding `data` with null children |
| `TreeNodes.Attach` | binary_tree.c:125-126 | making two disjointly owned subtrees a node's children keeps the ownership invariant, and the node then stands for `Node(left, data, right)` |
| `TreeNodes.CreateTreeHelper` | binary_tree.c:86-101 | allocates fresh nodes whose value tree is the value-level createTreeHelper of the same position |
| `TreeNodes.CreateTree` | binary_tree.c:103-105 | allocates fresh nodes whose value tree is the value-level createTree |
| `TreeNodes.InorderTraversal` | binary_tree.c:41-50 | the values visited are the in-order sequence of the tree the nodes stand for |
| `TreeNodes.PreorderTraversal` | binary_tree.c:53-62 | the values visited are the pre-order sequence of the tree the nodes stand for |
| `TreeNodes.TrimTreeHelper` | binary_tree.c:116-139 | in place: returns the same node or null; the returned nodes are valid, own no new objects, and stand for the value-level trim of the old tree |
| `TreeNodes.TrimTree` | binary_tree.c:141-147 | in place: the returned nodes stand for the value-level trimTree of the old tree |
| `TreeNodes.ToBstHelper` | binary_tree.c:155-173 | in place: returns the same node or null; the returned nodes are valid, own no new objects, and stand for the value-level pruning of the old tree |
| `TreeNodes.ToBst` | binary_tree.c:175-181 | in place: always returns the root itself, standing for the value-level toBST of the old tree |
| `Scenarios.LevelOrderExample` | binary_tree.c:86-105 | `[8,3,10,1,6,-1,14,-1,-1,4,7,-1,-1,-1,13]` builds the expected 9-node tree, with 13 as the right child of 14 |
| `Scenarios.InorderExample` | binary_tree.c:41-50 | that tree's in-order output is `1 3 4 6 7 8 10 14 13`, which is not sorted |
| `Scenarios.PreorderExample` | binary_tree.c:53-62 | that tree's pre-order output is `8 3 1 6 4 7 10 14 13` |
| `Scenarios.ToBstExample` | binary_tree.c:155-181 | toBST on that tree removes only 13 |
| `Scenarios.TrimExample` | binary_tree.c:116-147 | `[1,2,3]` trimmed to `[4,10]` loses leaf 2 (sum 3) and keeps leaf 3 (sum 4) |
| `Scenarios.TrimCascadeExample` | binary_tree.c:128-136 | with both leaves out of range the root becomes a leaf and is removed too |
| `Scenarios.ToBstKeepsEqualChildren` | binary_tree.c:162-170 | children equal to their parent are kept on both sides |

## Left out

- The `printf` output of the traversals is not modelled. Each traversal returns the sequence of values it would print instead.
- The allocation-failure path of `createNode` (`fprintf` and `exit`) is not modelled. Dafny allocation cannot fail.
- `freeTree` and the `free` calls in the pruning helpers are not modelled. A removed node simply leaves the result, or leaves the returned node's `Repr`. Dafny has no deallocation.
- Signed overflow of `currentSum += root->data` is not modelled. Path sums are unbounded integers, because overflow is undefined behaviour in C.
- The `int* arr` of `createTree` is a read-only sequence of at least `size` entries; reading past it is undefined behaviour in C, so `size <= |arr|` is required.
- Array positions and `size` are unbounded integers. The C `int` overflow of `2 * index + 1` and `2 * index + 2` (binary_tree.c:97-98), which arrays of 2^30 or more entries can reach and which is undefined behaviour, is not modelled: the model computes the child positions exactly.
- `binary_tree.h` is not part of this model. Only the node fields `data`, `left` and `right` are used.
