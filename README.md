# Three search trees over `int`: unbalanced, AVL and splay

This project models the three header-only tree classes of the repository,
with `Comparable` taken as `int`:

- `BinarySearchTree`, an unbalanced binary search tree. It keeps a node
  counter `size` and reports the depth of a found value, or -1 when the
  value is missing.
- `AVLTree`, a height-balanced tree. Each node caches its height, and
  `insert` rebalances with single and double rotations. `find` returns the
  depth of the value, or the sentinel 100 when it is missing.
- `SplayTree`, a self-adjusting tree. `find` splays toward the key and
  returns a depth counter, or 100 when the key is not at the root
  afterwards.

Node pointers become a datatype of values. `Nil` is the null pointer. Each
node owns its two subtrees outright, so no node is shared. The private
helpers that rewrite a child pointer through a reference (`add`, `remove`,
`insert`, `balance`, the rotations, `splay`) become functions that return
the rewritten subtree. Each tree class becomes a Dafny `class`. Its public
methods store the result back into `root`, and the unbalanced tree's
methods also update `size`.

Files:

- `binary_trees.dfy` (module `BinaryTrees`) holds the shared tree value and
  its specification functions: contents, in-order sequence, node count,
  height, search ordering, and "value `x` sits `d` edges below the root".
  It also proves that ordering is exactly a strictly increasing in-order
  sequence.
- `binary_search_tree.dfy` (module `Bst`) models `BinarySearchTree.h`.
- `avl_tree.dfy` (module `Avl`) models `AVLTree.h`. Its `Shape` function
  drops the cached heights.
- `splay_tree.dfy` (module `Splay`) models `SplayTree.h` as written,
  together with the inputs on which it misbehaves (see Findings).
- `splay_corrected.dfy` (module `SplayCorrected`) is the splay tree with its
  rotations pointed the right way. For it, the splayed root is proved to be
  the value nearest the key, `insert` is proved to keep the ordering, and
  `find` is proved to succeed exactly on present keys.

## Model

| member | source | states |
|---|---|---|
| BinaryTrees.AtDepthIsSearchDepth | BinarySearchTree.h:42-60 | In an ordered tree, a value sits at exactly one depth: the number of edges a comparison search descends to reach it. |
| Bst.Destroy | BinarySearchTree.h:23-30 | Post-order release frees every node of the subtree exactly once. The released values, with multiplicity, are the tree's contents. |
| Bst.FindFrom | BinarySearchTree.h:42-60 | Success means `c` is stored, and the depth is the starting depth plus the edges down to `c`. Failure sets the depth to -1. In an ordered tree the search succeeds iff `c` is present. |
| Bst.FindIn | BinarySearchTree.h:62-65 | Success means `c` is stored. In an ordered tree the search succeeds iff `c` is present. |
| Bst.AddAt | BinarySearchTree.h:68-85 | The contents become old + {c}. A result of true means exactly one node was created. A result of false means `c` was already present and the tree is untouched. Ordering is kept. In an ordered tree the result is true iff `c` was absent. |
| Bst.FindMax | BinarySearchTree.h:88-93 | Returns the last value in in-order, which is a stored value. In an ordered tree it is the largest value. |
| Bst.RemoveAt | BinarySearchTree.h:96-125 | The contents only shrink, and exactly one node goes when a deletion is reported. In an ordered tree: ordering is kept, the contents become old − {c}, a deletion happens iff `c` was present, and otherwise the tree is untouched. |
| Bst.RemoveMaxSplicesRightmost | BinarySearchTree.h:110-115 | In the two-child case, the recursive removal of the left subtree's maximum splices out that subtree's rightmost node. It reaches the zero-or-one-child branch at once. |
| Bst.BinarySearchTree.constructor | BinarySearchTree.h:129-132 | The tree starts empty with `size` 0. |
| Bst.BinarySearchTree.Copy | BinarySearchTree.h:135-139 | The copy has the same nodes. `size` is reset and then counts exactly the copied nodes. |
| Bst.BinarySearchTree.CopyNode | BinarySearchTree.h:33-39 | Returns a node-for-node copy. `size` grows by the number of nodes copied. |
| Bst.BinarySearchTree.Timber | BinarySearchTree.h:148-151 | The tree becomes empty. `size` is left unchanged. |
| Bst.BinarySearchTree.IsEmpty | BinarySearchTree.h:153-155 | True exactly when the tree holds no value. |
| Bst.BinarySearchTree.GetSize | BinarySearchTree.h:177-179 | Returns `size`, which is never below the number of nodes present. |
| Bst.BinarySearchTree.FindDepth | BinarySearchTree.h:156-160 | Succeeds iff `c` is stored, and then reports the depth at which `c` sits. Otherwise it reports -1. |
| Bst.BinarySearchTree.Find | BinarySearchTree.h:162-165 | Succeeds iff `c` is stored. |
| Bst.BinarySearchTree.Add | BinarySearchTree.h:167-170 | True iff `c` was absent. Then `c` is added, and `size` and the node count both grow by one. Otherwise nothing changes. Ordering is kept. |
| Bst.BinarySearchTree.Remove | BinarySearchTree.h:172-175 | Deletes `c`. When `c` was present, `size` and the node count both drop by one. Otherwise nothing changes. Ordering is kept. |
| Bst.BinarySearchTree.Assign | BinarySearchTree.h:182-186 | After assignment from another tree, this tree holds that tree's nodes and `size` equals their count. Self-assignment leaves the tree empty with `size` 0. |
| Bst.AscendingChainDepths | main.cpp:39-50 | Adding 1..n in order builds a chain. `find(n)` then reports depth n−1 and `find(1)` reports depth 0. |
| Avl.Height | AVLTree.h:24-26 | -1 for a null pointer. When the caches are correct, it is the subtree's real height. |
| Avl.UpdateHeight | AVLTree.h:29-33 | Leaves the shape unchanged. Makes the node's cache correct when its children's caches are correct. |
| Avl.BalanceFactor | AVLTree.h:36-38 | When the caches are correct, returns left height minus right height. |
| Avl.RotateWithLeftChild | AVLTree.h:41-48 | Keeps the in-order sequence and promotes the left child. Keeps all caches correct. |
| Avl.RotateWithRightChild | AVLTree.h:51-58 | Keeps the in-order sequence and promotes the right child. Keeps all caches correct. |
| Avl.DoubleWithLeftChild | AVLTree.h:61-64 | Keeps the in-order sequence and promotes the left child's right child. Keeps all caches correct. |
| Avl.DoubleWithRightChild | AVLTree.h:67-70 | Keeps the in-order sequence and promotes the right child's left child. Keeps all caches correct. |
| Avl.Balance | AVLTree.h:91-107 | Keeps the in-order sequence, contents and ordering, and keeps caches correct. Returns the node unchanged when its balance factor is within −1..1. |
| Avl.LeftLeftRestores | AVLTree.h:93-95 | At +2 with a left child of factor ≥ 0, the single rotation balances the node and lowers its height by at most one. |
| Avl.LeftRightRestores | AVLTree.h:96-98 | At +2 with a left child of factor < 0, the double rotation balances the node and lowers its height by at most one. |
| Avl.RightRightRestores | AVLTree.h:100-101 | At −2 with a right child of factor ≤ 0, the single rotation balances the node and lowers its height by at most one. |
| Avl.RightLeftRestores | AVLTree.h:102-104 | At −2 with a right child of factor > 0, the double rotation balances the node and lowers its height by at most one. |
| Avl.BalanceRestores | AVLTree.h:91-107 | If both subtrees are balanced and the factor is within ±2, the result is balanced and its height is the old height or one less. |
| Avl.Insert | AVLTree.h:73-88 | The contents become old + {x}. Caches stay correct and ordering is kept. |
| Avl.InsertKeepsAvl | AVLTree.h:73-88 | Inserting into a balanced tree gives a balanced tree whose height grew by 0 or 1. |
| Avl.InsertPresentUnchanged | AVLTree.h:82-84 | Inserting a value already in a valid tree returns the tree unchanged. |
| Avl.AVLTree.constructor | AVLTree.h:111 | The tree starts empty. |
| Avl.AVLTree.Add | AVLTree.h:114-116 | Adds `c`, and the tree stays ordered, correctly cached and balanced. |
| Avl.AVLTree.Find | AVLTree.h:119-134 | `depth` ends at the number of edges descended. A present value gives its depth, and it sits at that depth. An absent value gives 100. |
| Avl.AscendingThree | main.cpp:39-43 | Adding 1, 2, 3 rebalances to root 2 of height 1. 2 is found at depth 0, and 1 and 3 at depth 1. |
| Splay.RotateWithLeftChild | SplayTree.h:59-65 | Keeps the in-order sequence. A no-op on a null node or null left child. Otherwise promotes the left child above the old root. |
| Splay.RotateWithRightChild | SplayTree.h:68-74 | Keeps the in-order sequence. A no-op on a null node or null right child. Otherwise promotes the right child above the old root. |
| Splay.Splay | SplayTree.h:23-56 | Keeps the in-order sequence. The counter grows by at most (height+1)/2. It grows by nothing exactly when the first step stops (empty tree, key at the root, or no child on the key's side). A root holding the key is left as it is. |
| Splay.SplitAt | SplayTree.h:84-98 | A root equal to `x` is kept. Otherwise the new root holds `x` and its in-order sequence is the old one with `x` inserted just before or after the old root. The contents become old + {x}. |
| Splay.Insert | SplayTree.h:77-99 | The new root holds `x` and the contents become old + {x}. An empty tree becomes a single node. The in-order sequence is the old one, or the old one with `x` inserted next to the splayed root. |
| Splay.InsertAddsOneCopy | SplayTree.h:83-98 | Counting multiplicity, `insert` adds one copy of `x` unless the splayed root already holds `x`. |
| Splay.SplayTree.constructor | SplayTree.h:103 | The tree starts empty. |
| Splay.SplayTree.Add | SplayTree.h:106-108 | The root becomes `insert(c, root)`, and the contents gain `c`. |
| Splay.SplayTree.Find | SplayTree.h:111-118 | The root becomes the splayed tree, with the in-order sequence unchanged. Returns 100 unless the new root holds `x`, and otherwise returns the depth counter. |
| Splay.FindMissesPresentKey | SplayTree.h:28-40 | After adding 1, 2, 3, the tree is an ordered left chain holding 1. Splaying for 1 leaves it as it was, so `find(1)` returns 100. |
| Splay.InsertBreaksOrdering | SplayTree.h:83-98 | Adding 8, 1, 10 gives root 10 with 8 in its right subtree, and the tree is no longer ordered. |
| Splay.InsertDuplicates | SplayTree.h:83-86 | Adding 1 to the tree built from 1, 2, 3 stores a second 1. |
| SplayCorrected.Splay | SplayTree.h:23-56 | With rotations toward the descended side, it keeps the in-order sequence, the emptiness, the counter bound, and a root holding the key. |
| SplayCorrected.SplayNearest | SplayTree.h:23-56 | In an ordered non-empty tree the splayed root is the key when present. Otherwise it is its predecessor or successor, and no stored value lies between it and the key. |
| SplayCorrected.Insert | SplayTree.h:77-99 | The new root holds `x`, and the contents become old + {x}. |
| SplayCorrected.SplitKeepsOrdering | SplayTree.h:88-97 | If the root is the value nearest `x`, splitting around a new root `x` leaves an ordered tree. |
| SplayCorrected.InsertKeepsOrdering | SplayTree.h:88-97 | Inserting into an ordered tree yields an ordered tree. |
| SplayCorrected.InsertPresentUnchanged | SplayTree.h:84-86 | Adding a present value only splays. The in-order sequence is unchanged, so nothing is duplicated. |
| SplayCorrected.CorrectedOnCounterexamples | SplayTree.h:23-56 | On the Findings inputs, splaying for 1 brings it to the root with counter 1, and adding 8, 1, 10 gives an ordered tree. |
| SplayCorrected.SplayTree.constructor | SplayTree.h:103 | The tree starts empty and ordered. |
| SplayCorrected.SplayTree.Add | SplayTree.h:106-108 | Adds `c` and keeps the tree ordered. |
| SplayCorrected.SplayTree.Find | SplayTree.h:111-118 | Keeps the ordering and the in-order sequence. A present `x` ends at the root and its counter is returned. An absent `x` gives 100. |

## Left out

- Memory management is not modelled. This covers `new`/`delete`, the destructor `~BinarySearchTree` and dangling pointers. Values replace pointers, and no node is shared, so aliasing is not modelled either.
- The driver in `main.cpp` and the plotting script `generate_graphs.py` are left out. File output, random shuffling and the call to Python are I/O. Only the ascending-insertion scenario is stated, for general n and for three values.
- Integer widths are not modelled. `int` depths, `unsigned long size` and the stored `int` values are unbounded here. Overflow needs more than 2^31 nodes.
- `operator=` has no `return *this`. Flowing off the end of a value-returning function is undefined in C++. `Bst.BinarySearchTree.Assign` models only the effect on the tree.
- Bst.BinarySearchTree.GetSize: states only `size` ≥ node count, not equality. `timber` deletes the nodes without resetting `size`, so equality fails after `timber`.
- Bst.BinarySearchTree.FindDepth: a failed search reports -1. That is the code's behaviour, and the model follows it.
- Avl.RotateWithLeftChild, Avl.RotateWithRightChild, Avl.DoubleWithLeftChild and Avl.DoubleWithRightChild require the child being promoted to be non-null. The C++ code dereferences it unconditionally, and `Avl.Balance` calls them only where it is non-null.
- Avl.Insert, Avl.Balance: require correct height caches. That is the class invariant. With wrong caches, `balance` could select a null child and crash.
- Avl.AVLTree.Find, Splay.SplayTree.Find: the sentinel 100 is not distinguished from a real depth of 100, as in the code.
- Splay.Splay, SplayCorrected.Splay: the returned counter counts splay steps, each descending one or two levels, not the key's depth. The contract bounds it by the height instead of naming it as a depth.
- The recursive `splay` rewrites grandchild pointers in place. The model rebuilds the rewritten nodes as values, so the sharing of the untouched subtrees is not observable.

## Findings

| source | as written | input that shows it | evidently intended | confidence | as-written member | corrected member |
|---|---|---|---|---|---|---|
| SplayTree.h:28-53 | Descending left, the zig-zig and final steps call `rotateWithRightChild` and the zig-zag step calls `rotateWithLeftChild`. The right side is mirrored the same way, so each rotation is a no-op or pulls the wrong child up. | Add 1, 2, 3, then `find(1)`: 1 is stored, yet the result is 100. | Rotate toward the descended side, so the searched key ends at the root and `find` succeeds on every present key. | not executed | Splay.FindMissesPresentKey | SplayCorrected.SplayNearest |
| SplayTree.h:83-98 | `insert` splits around whatever root the mirrored `splay` leaves, which need not be the value nearest `x`. | Add 8, 1, 10: the result is root 10 with 8 in its right subtree, and the tree is no longer ordered. | The split root is the nearest value, so the new root separates smaller from larger values. | not executed | Splay.InsertBreaksOrdering | SplayCorrected.InsertKeepsOrdering |
| SplayTree.h:83-86 | The duplicate test looks only at the splayed root, which may not hold `x` even when `x` is present. | Add 1, 2, 3, then add 1 again: the in-order sequence becomes 1, 2, 1, 3. | A present value is not inserted twice. | not executed | Splay.InsertDuplicates | SplayCorrected.InsertPresentUnchanged |
