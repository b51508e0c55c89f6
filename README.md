# AVL tree — a verified Dafny model

This project models the generic AVL tree of `src/Utility/AVLTree.hpp` and proves its
contracts. The tree is a binary search tree whose nodes cache their height (an absent
node counts as -1). After every insertion it re-establishes, with four rotations, that
the two children of each node differ in height by at most one. Removal tries to do the
same, but as written it can leave a node whose children differ by two (see Findings).

The model is split into modules that follow the header's structure:

- `AvlNode` (`avl_node.dfy`) — the node as a value:
  - `Tree = Nil | Node(key, left, right, height)`, with `height(Node*)` and `max`;
  - the private `findMin`/`findMax`;
  - the invariants: search order (`IsBST`), right cached heights (`HeightsOk`) and AVL balance over the cached heights (`Balanced`);
  - the in-order walk and the facts that relate it to search order.
- `AvlRotation` (`avl_rotation.dfy`) — the four rotations, each returning the new subtree root, and the height and balance facts each rotation gives.
- `AvlInsert` (`avl_insert.dfy`) — the private recursive `insert`, with its rebalancing checks. It also holds a total version of `insert` that reports the null dereference a double rotation makes when the inner grandchild is missing.
- `AvlRemove` (`avl_remove.dfy`) — the private recursive `remove` as written. It also holds a corrected variant of its rebalancing choice (see Findings).
- `AvlHeight` (`avl_height.dfy`) — the height bound balance buys: a balanced tree of height h has at least Fib(h + 3) - 1 nodes, so its height is logarithmic in its size.
- `AvlTreeObject` (`avl_tree.dfy`) — the tree object: a class `AVLTree` with fields `root` and `size`, and its public operations:
  - the constructors;
  - `insert` and `remove`, with the private recursive descent as methods that count created and deleted nodes in `size`;
  - `contains` as a loop;
  - the explicit-stack in-order walk of the copy constructor and of `assert_if_in_order`;
  - the accessors.
- `AvlScenarios` (`avl_scenarios.dfy`) — the tree built by `src/Test/AVLTreeTest.hpp`, computed through the model.
- `AvlFindings` (`avl_findings.dfy`) — the concrete tree on which removal loses balance, the insertion that then dereferences a null child, and the corrected outcomes.

Keys are `int`, standing for the template parameter `T` with its three-way comparison.
The class invariant `Valid()` is search order plus right cached heights plus `size`
equal to the number of keys. `IsBalanced()` adds AVL balance. `Insert` requires and
keeps `IsBalanced()`. `Remove` requires it but promises back only `Valid()`, because
the code as written can unbalance the tree (see Findings).

## Model

| member | source | states |
|---|---|---|
| AvlNode.Max | src/Utility/AVLTree.hpp:61-63 | the result is at least each argument and equals one of them |
| AvlNode.UpdateHeight | src/Utility/AVLTree.hpp:153 | recomputing a node's height changes neither its key, its children nor its keys; it makes the cache right when the children's caches are right, and leaves a right cache unchanged |
| AvlNode.CachedHeightIsDepth | src/Utility/AVLTree.hpp:47-52 | with right cached heights, `height(node)` is the structural height, at least -1, and -1 exactly for the empty tree |
| AvlNode.InOrderHasKeys | src/Utility/AVLTree.hpp:427-440 | the in-order walk lists exactly the keys of the tree |
| AvlNode.BstIffInOrderIncreasing | src/Utility/AVLTree.hpp:441-445 | a tree is a search tree if and only if its in-order walk ascends strictly, which is the adjacent-pair test of `assert_if_in_order` |
| AvlNode.IncreasingUnique | src/Utility/AVLTree.hpp:309-323 | two strictly ascending sequences with the same elements are equal, which fixes the walk of a copy rebuilt by re-insertion |
| AvlNode.InOrderDeterminedByKeys | src/Utility/AVLTree.hpp:309-323 | two search trees with the same keys walk in the same order whatever their shapes |
| AvlNode.MinNode | src/Utility/AVLTree.hpp:163-171 | the result is absent exactly for an empty subtree; otherwise it has no left child, holds a key of the subtree and, on a search tree, the least one |
| AvlNode.MaxNode | src/Utility/AVLTree.hpp:179-187 | the mirror image: absent exactly when empty, no right child, and on a search tree the greatest key |
| AvlRotation.BstRotation | src/Utility/AVLTree.hpp:71-78 | moving the left child above its parent keeps search order, and so does the reverse |
| AvlRotation.RotateWithLeftChild | src/Utility/AVLTree.hpp:71-78 | the LL rotation keeps the in-order sequence, the keys and search order; with the demoted node's height recomputed before the promoted node's, both cached heights are right |
| AvlRotation.RotateWithRightChild | src/Utility/AVLTree.hpp:86-93 | the RR rotation keeps the in-order sequence, the keys and search order, and leaves both cached heights right |
| AvlRotation.DoubleWithLeftChild | src/Utility/AVLTree.hpp:101-104 | the RR rotation of the left child followed by the LL rotation of the node: the left child's right child becomes the root, with the left child and the node as its children and the four subtrees in order; walk, keys, order and heights as for a single rotation |
| AvlRotation.DoubleWithRightChild | src/Utility/AVLTree.hpp:112-115 | the LL rotation of the right child followed by the RR rotation of the node: the right child's left child becomes the root, the mirror image of the above |
| AvlRotation.RotateWithLeftChildBalances | src/Utility/AVLTree.hpp:134-136 | at a node whose left child is two taller than its right and does not lean right, the LL rotation restores balance and right heights, and the subtree ends two taller than the left child's inner subtree |
| AvlRotation.RotateWithRightChildBalances | src/Utility/AVLTree.hpp:145-147 | the mirror image for the RR rotation |
| AvlRotation.DoubleWithLeftChildBalances | src/Utility/AVLTree.hpp:137-138 | at a node whose left child is two taller and leans right by one, the LR rotation restores balance and keeps the left child's height |
| AvlRotation.DoubleWithRightChildBalances | src/Utility/AVLTree.hpp:148-149 | the mirror image for the RL rotation |
| AvlRotation.DoubleWithLeftChildOnLevel | src/Utility/AVLTree.hpp:245-246 | the LR rotation at a level left child keeps the cached heights right, and the subtree ends one taller than that child; balance is not claimed |
| AvlRotation.DoubleWithRightChildOnLevel | src/Utility/AVLTree.hpp:251-252 | the mirror image for the RL rotation |
| AvlInsert.BalanceLeftAfterInsert | src/Utility/AVLTree.hpp:134-140 | the balance check after a left insertion keeps the keys and search order |
| AvlInsert.BalanceRightAfterInsert | src/Utility/AVLTree.hpp:145-151 | the balance check after a right insertion keeps the keys and search order |
| AvlInsert.LeftInsertRebalances | src/Utility/AVLTree.hpp:130-140 | after re-linking a taller left subtree, the rotation chosen by comparing `x` with the left child's key is defined; the rebalanced node is balanced with right heights, at most one taller, and when it grew the side `x` went to is the taller one |
| AvlInsert.RightInsertRebalances | src/Utility/AVLTree.hpp:141-151 | the mirror image for a right insertion |
| AvlInsert.InsertInto | src/Utility/AVLTree.hpp:124-155 | on a balanced tree with right heights, insertion gives a non-empty balanced tree with right heights, of the same height or one taller; when it grew the root kept its key and the side `x` went to is taller; inserting the root's key changes nothing |
| AvlInsert.InsertKeys | src/Utility/AVLTree.hpp:124-155 | insertion adds exactly `x` to the keys |
| AvlInsert.InsertKeepsOrder | src/Utility/AVLTree.hpp:124-155 | insertion keeps search order |
| AvlInsert.InsertExistingIsNoOp | src/Utility/AVLTree.hpp:130-152 | inserting a key already in a search tree gives back the same tree |
| AvlInsert.InsertAsWritten | src/Utility/AVLTree.hpp:124-155 | insertion with the null dereference of a double rotation made visible as a failure; when it does not fail it gives a non-empty tree |
| AvlInsert.InsertAsWrittenAgrees | src/Utility/AVLTree.hpp:124-155 | on a balanced tree with right cached heights, insertion never dereferences a null child and gives the `InsertInto` result |
| AvlRemove.BalanceAfterRemove | src/Utility/AVLTree.hpp:236-255 | the rebalancing step of removal, as written, keeps the keys and search order |
| AvlRemove.RemovedRightRebalances | src/Utility/AVLTree.hpp:206-209 | after re-linking a right subtree at most one shorter, the node cannot be right-heavy by two, the rotation chosen is defined, heights are right and the subtree is at most one shorter |
| AvlRemove.RemovedLeftRebalances | src/Utility/AVLTree.hpp:202-205 | the mirror image for a removal from the left subtree |
| AvlRemove.SplicedRebalances | src/Utility/AVLTree.hpp:218-231 | replacing a node with at most one child by that child gives a balanced subtree with right heights, exactly one shorter, that rebalancing leaves as it is |
| AvlRemove.RemoveFrom | src/Utility/AVLTree.hpp:196-256 | on a balanced tree with right heights every rotation removal makes is defined, the cached heights stay right, and the subtree loses at most one level |
| AvlRemove.RemoveKeys | src/Utility/AVLTree.hpp:196-231 | on a search tree, removal takes exactly `x` out of the keys |
| AvlRemove.RemoveMatchKeys | src/Utility/AVLTree.hpp:210-231 | at the node holding the key, copying in the right subtree's minimum and removing it there, or splicing in the only child, removes exactly that key |
| AvlRemove.RemoveKeepsOrder | src/Utility/AVLTree.hpp:210-217 | removal keeps search order; the copied right-subtree minimum stays above the left keys and below the remaining right keys |
| AvlRemove.RemoveAbsentIsNoOp | src/Utility/AVLTree.hpp:198-209 | removing a key not in a search tree gives back the same tree |
| AvlRemove.BalanceAfterRemoveCorrected | src/Utility/AVLTree.hpp:242-253 | the rebalancing step with a single rotation whenever the heavy child does not lean inward; it keeps the keys and search order |
| AvlRemove.CorrectedRemovedRightRebalances | src/Utility/AVLTree.hpp:206-209 | with the corrected choice, re-linking a balanced right subtree at most one shorter leaves a balanced node with right heights, at most one shorter |
| AvlRemove.CorrectedRemovedLeftRebalances | src/Utility/AVLTree.hpp:202-205 | the mirror image for the left subtree |
| AvlRemove.RemoveFromCorrected | src/Utility/AVLTree.hpp:196-256 | with the corrected choice, removal from a balanced tree with right heights gives a balanced tree with right heights, at most one shorter |
| AvlHeight.Count | src/Utility/AVLTree.hpp:478-481 | the number of nodes is 0 exactly for the empty tree |
| AvlHeight.CountIsKeys | src/Utility/AVLTree.hpp:478-481 | a search tree has as many nodes as keys, because its keys are distinct |
| AvlHeight.BalancedIsShallow | src/Utility/AVLTree.hpp:134-149 | a balanced tree with right cached heights and height h has at least Fib(h + 3) - 1 nodes |
| AvlHeight.BalancedHeightIsLogarithmic | src/Utility/AVLTree.hpp:134-149 | a balanced tree with right cached heights, height h and n nodes satisfies 2^((h + 2) / 2) <= n + 1, so h is at most about 2 log2(n + 1) |
| AvlTreeObject.WalkPush | src/Utility/AVLTree.hpp:314-317 | pushing a node and moving to its left child leaves the keys still owed by the walk unchanged |
| AvlTreeObject.WalkPop | src/Utility/AVLTree.hpp:318-321 | popping the top node and emitting its key moves the walk to that node's right subtree |
| AvlTreeObject.WalkComplete | src/Utility/AVLTree.hpp:309-323 | once the walk is complete, a search tree holding the visited keys holds the source's keys and, when the source is a search tree, walks like it |
| AvlTreeObject.InOrderWalk | src/Utility/AVLTree.hpp:428-440 | the explicit-stack walk fills `expand` with exactly the in-order sequence of the tree |
| AvlTreeObject.BuildFrom | src/Utility/AVLTree.hpp:298-302 | inserting a list of keys one after another from the empty tree gives a valid AVL tree holding exactly those keys |
| AvlTreeObject.AVLTree.constructor | src/Utility/AVLTree.hpp:291 | the default tree is empty, with size 0, and keeps the invariant |
| AvlTreeObject.AVLTree.FromList | src/Utility/AVLTree.hpp:298-302 | the initializer-list constructor keeps the invariant and builds the tree of `BuildFrom` |
| AvlTreeObject.AVLTree.Copy | src/Utility/AVLTree.hpp:309-323 | the copy keeps the invariant and holds the source's keys; when the source keeps its invariant the copy has its size and walks in the same order |
| AvlTreeObject.AVLTree.Move | src/Utility/AVLTree.hpp:358-363 | the new tree takes over the source's root and size (and its validity); the source is left empty with size 0 |
| AvlTreeObject.AVLTree.InsertAt | src/Utility/AVLTree.hpp:124-155 | the recursive descent returns the `InsertInto` result and adds one to `size` exactly when `x` was absent |
| AvlTreeObject.AVLTree.Insert | src/Utility/AVLTree.hpp:386-388 | the keys gain `x`, the size grows by one exactly when `x` was absent, an existing key leaves the tree as it was, and balance is kept |
| AvlTreeObject.AVLTree.RemoveAt | src/Utility/AVLTree.hpp:196-256 | the recursive descent returns the `RemoveFrom` result and takes one from `size` exactly when `x` was present |
| AvlTreeObject.AVLTree.Remove | src/Utility/AVLTree.hpp:389-391 | the keys lose `x`, the size shrinks by one exactly when `x` was present, an absent key leaves the tree as it was; order, heights and the counter stay right |
| AvlTreeObject.AVLTree.Contains | src/Utility/AVLTree.hpp:457-469 | a found key is in the tree, and on a search tree every key in it is found |
| AvlTreeObject.AVLTree.FindMin | src/Utility/AVLTree.hpp:450-452 | on a non-empty tree, a key of the tree, and on a search tree the least one |
| AvlTreeObject.AVLTree.FindMax | src/Utility/AVLTree.hpp:453-455 | on a non-empty tree, a key of the tree, and on a search tree the greatest one |
| AvlTreeObject.AVLTree.IsEmpty | src/Utility/AVLTree.hpp:470-472 | true exactly when the tree has no keys, and under the invariant exactly when the size is 0 |
| AvlTreeObject.AVLTree.Height | src/Utility/AVLTree.hpp:474-477 | -1 for the empty tree; with right cached heights, the structural height, -1 only when empty; on a balanced tree, Fib(h + 3) <= size + 1 and 2^((h + 2) / 2) <= size + 1 |
| AvlTreeObject.AVLTree.Size | src/Utility/AVLTree.hpp:478-481 | under the invariant, the number of keys |
| AvlTreeObject.AVLTree.AssertIfInOrder | src/Utility/AVLTree.hpp:427-448 | the check passes exactly on search trees, so never fails on a valid tree |
| AvlScenarios.TestTreeBuilt | src/Test/AVLTreeTest.hpp:24 | inserting 1, 3, 7, 4, 5, 9, 2 (or any keys in that relative order) gives a tree of height 3 rooted at 5, after three rotations, and it walks 1, 2, 3, 4, 5, 7, 9 |
| AvlFindings.BuildWitness | src/Utility/AVLTree.hpp:298-302 | inserting 10, 4, 12, 2, 6, 13, 1, 7 (or any keys in that relative order) builds the tree of the finding below |
| AvlFindings.RemoveCanUnbalance | src/Utility/AVLTree.hpp:242-247 | removing 13 from that valid AVL tree, as written, gives a tree with right heights whose node 4 has a left subtree of height 1 and no right subtree |
| AvlFindings.CorrectedRemoveKeepsBalance | src/Utility/AVLTree.hpp:242-247 | with the corrected choice the same removal makes a single rotation and the result is balanced |
| AvlFindings.InsertAfterRemoveCrashes | src/Utility/AVLTree.hpp:134-138 | after that removal, inserting the existing key 2, as written, reaches the double rotation at node 4 whose left child 2 has no right child, and dereferences it |
| AvlFindings.CorrectedRemoveKeepsInsertSafe | src/Utility/AVLTree.hpp:124-155 | after a corrected removal from a balanced tree with right heights, any insertion is free of null dereferences and gives the `InsertInto` result |

## Left out

- `print` and `print_in_layer` (src/Utility/AVLTree.hpp:263-270, 393-426) only write to the console.
- The copy assignment (src/Utility/AVLTree.hpp:331-351) frees the nodes with `clear(root)` but does not reset `root` or `_size` before re-inserting, so its behaviour is undefined. The move assignment (src/Utility/AVLTree.hpp:371-376) has no `return` statement and leaks the old nodes. Neither has a contract to state.
- `clear` and the destructor (src/Utility/AVLTree.hpp:277-284, 382-384) only free memory, which Dafny manages.
- src/TaskManager.hpp, src/Utility/FileManager.hpp and src/main.cpp are file and console I/O around a tree, and are not part of this model.
- The nodes are values, not heap objects. The model therefore does not capture the in-place re-linking of child pointers, or node identity and aliasing. The rotations return the new subtree root, as the source's do, and the caller re-links it.
- Keys are `int`. The template parameter `T` with `std::three_way_comparable` is represented by its total order on `int`.
- The C++ `int` fields `height` and `_size` are unbounded integers in the model; overflow is not modelled.
- AvlTreeObject.AVLTree.Remove: does not promise balance back. The code as written can leave a node whose children differ in height by two (see Findings).
- AvlTreeObject.AVLTree.AssertIfInOrder: the thrown `std::runtime_error` becomes a `false` result, and the printed message is left out.
- AvlTreeObject.AVLTree.FindMin and AvlTreeObject.AVLTree.FindMax: the source dereferences a null pointer on an empty tree; the model requires a non-empty tree instead.
- AvlTreeObject.AVLTree.Insert and AvlTreeObject.AVLTree.Remove: they require a balanced tree with right cached heights. The double rotations dereference the inner grandchild. Balance together with right heights guarantees that it exists; right heights alone do not (see the second row of Findings).
- The empty tree's height is -1, as `height(Node*)` returns (src/Utility/AVLTree.hpp:47-49). The comment at src/Utility/AVLTree.hpp:474 says the height should be at least 0. The model follows the code.
- The test file src/Test/AVLTreeTest.hpp calls a `get_size()` that does not exist. Only its first key sequence is computed here (AvlScenarios.TestTreeBuilt). Its later insertions of existing keys are covered by AvlInsert.InsertExistingIsNoOp, and its removals of absent keys by AvlRemove.RemoveAbsentIsNoOp.

## Findings

| source | as written | input that shows it | evidently intended | confidence | as-written member | corrected member |
|---|---|---|---|---|---|---|
| src/Utility/AVLTree.hpp:243-252 | after a removal, a node two heavier on one side gets a single rotation only when its heavy child leans outward by exactly 1; a level heavy child gets a double rotation, which can leave a node whose children differ in height by 2 | insert 10, 4, 12, 2, 6, 13, 1, 7, then remove 13: the result is rooted at 6, and node 4 has a left subtree of height 1 and no right subtree | a single rotation whenever the heavy child's difference is `>= 0`, which keeps the tree balanced after every removal | not executed | AvlFindings.RemoveCanUnbalance | AvlRemove.RemoveFromCorrected |
| src/Utility/AVLTree.hpp:134-138, 101-104, 86-93 | a second consequence of the same `== 1` test: insertion into the unbalanced tree that removal left reaches a double rotation at a node whose heavy child has no inner child, and `rotateWithRightChild` reads that absent child's left pointer (line 88) | insert 10, 4, 12, 2, 6, 13, 1, 7, remove 13, then insert 2: node 4's left child 2 is two taller than its absent right child, 2 is not below 2, and `doubleWithLeftChild` rotates node 2, whose right child is null | removal that keeps balance, after which every insertion's double rotation finds its inner child | not executed | AvlFindings.InsertAfterRemoveCrashes | AvlFindings.CorrectedRemoveKeepsInsertSafe |
