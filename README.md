# AVL tree: a verified model

This project models the AVL tree of `AVLTree.cpp`, and proves properties of the model. The tree maps `std::string` keys to `size_t` values. Each node holds a key, a value, a cached height and two owned children. The model covers these parts of the source:

- insertion (`insert`, `insertNode`);
- removal (public and private `remove`, `removeNode` with its successor loop);
- the rebalancer (`balanceNode`, `rotateToRight`, `rotateToLeft`);
- the height accessors (`getNodeHeight`, `getTreeHeight`, `AVLNode::getHeight`);
- `AVLNode::numChildren` and `isLeaf`;
- `deepCopy` and the copy constructor;
- the key sequence that `operator<<` writes.

Modules, in dependency order:

- `StringOrder` (`string_order.dfy`): lexicographic `<` on strings, proved to be a strict total order.
- `Entries` (`entries.dfy`): the abstract contents, which are the in-order sequence of `(key, value)` entries. It also holds the two reference operations on that sequence:
  - `InsertSorted` puts an entry in key order;
  - `DeleteKey` drops the entry with a key.
- `AvlNode` (`avl_node.dfy`): the node as the datatype `Tree = Nil | Node(key, value, height, left, right)`. It defines three invariants:
  - BST order (`Ordered`);
  - a sound height cache (`HeightsOk`);
  - AVL balance (`Balanced`).

  It also holds the node helpers, the deep copy and the emitted key sequence.
- `Rebalance` (`rebalance.dfy`): the two rotations and `balanceNode`, with one lemma per rotation case.
- `Insertion` (`insertion.dfy`), `Removal` (`removal.dfy`): the recursive workers.
- `Container` (`avl_tree.dfy`): the class `AvlTree`, whose `root` field the public operations reassign.
- `Findings` (`findings.dfy`): two defects of the two-child removal. For each there is the code as written, a counterexample, and a corrected version.

Every C++ function that takes an `AVLNode*&` and rewrites the link becomes a method. It takes the subtree and returns its new root, plus the `bool` result where there is one. The caller stores the returned root where the C++ code would have written through the reference. The steps of the source are kept:

- the height is recomputed from the children's cached heights, then `balanceNode` runs;
- a rotation recomputes the demoted node's height before the new root's;
- `removeNode` counts children, walks left to the successor in a `while` loop, and copies the successor's key and value before the recursive removal.

What removal guarantees:

- Removal returns `false` exactly when the key is absent, and then changes nothing.
- Otherwise the key's entry is deleted and BST order is kept.
- The height cache and AVL balance are guaranteed to be preserved only when the removed key's node has at most one child (`Removal.TwoChildrenAt` is false). When that node has two children they are sometimes kept and sometimes broken: the code does not recompute the height of a node it overwrites with its successor, and does not rebalance it. `Findings` shows two trees where they break, and `remove` on them goes wrong.

## Model

| member | source | states |
|---|---|---|
| StringOrder.Less | AVLTree.cpp:55 | the `std::string` `<` that steers every search: the first differing character decides, and a proper prefix is smaller. It is an ordinary predicate; its order properties are the four lemmas below |
| StringOrder.LessIrreflexive | AVLTree.cpp:55 | no key is below itself under the lexicographic `<` the search uses |
| StringOrder.LessAsymmetric | AVLTree.cpp:179 | `a < b` rules out `b < a`, so the `<` and `>` branches of `remove` exclude each other |
| StringOrder.LessTransitive | AVLTree.cpp:154 | the key order is transitive |
| StringOrder.LessTotal | AVLTree.cpp:200 | two keys are equal or ordered one way, so `remove`'s final `else` means the keys are equal |
| Entries.InsertSortedSpec | AVLTree.cpp:40-81 | the reference insertion into a sorted sequence without the key yields a sorted sequence holding exactly the old entries plus the new one |
| Entries.InsertSortedIntoLeft | AVLTree.cpp:55-56 | inserting a key below the whole right part leaves that part untouched (descent to the left) |
| Entries.InsertSortedIntoRight | AVLTree.cpp:57-58 | inserting a key above the whole left part leaves that part untouched (descent to the right) |
| Entries.DeleteKeySpec | AVLTree.cpp:145-205 | the reference deletion on a sorted sequence keeps it sorted and keeps exactly the entries whose key differs |
| Entries.DeleteKeyFromLeft | AVLTree.cpp:154-158 | deleting a key absent from the right part deletes it from the left part only |
| Entries.DeleteKeyFromRight | AVLTree.cpp:179-183 | deleting a key absent from the left part deletes it from the right part only |
| Entries.DeleteKeyAbsent | AVLTree.cpp:149-151 | deleting an absent key changes nothing |
| AvlNode.NodeHeight | AVLTree.cpp:243-249 | `getNodeHeight` and `AVLNode::getHeight`: the node's cached height, 0 for a null node. It is an ordinary function; that it is the real height under a sound cache is `AvlNode.CachedHeightIsDepth` |
| AvlNode.CachedHeightIsDepth | AVLTree.cpp:243-249 | `getNodeHeight`/`getHeight` return the real height (longest path in nodes, 0 for null) whenever the height cache is sound |
| AvlNode.OrderedIffSorted | AVLTree.cpp:344-358 | BST order holds exactly when the in-order keys strictly ascend |
| AvlNode.AvlHasMinNodes | AVLTree.cpp:251-253 | an AVL tree whose cached height is h holds at least MinNodes(h) entries: MinNodes(0) = 0, MinNodes(1) = 1 and MinNodes(h) = 1 + MinNodes(h-1) + MinNodes(h-2) otherwise, the smallest AVL tree of each height |
| AvlNode.AvlHeightIsLogarithmic | AVLTree.cpp:251-253 | an AVL tree of height h holds at least 2^(h/2) - 1 entries |
| AvlNode.IsLeaf | AVLTree.cpp:239-241 | a node is a leaf exactly when its subtree holds a single entry |
| AvlNode.NumChildren | AVLTree.cpp:227-237 | the count is at most 2; it is 0 exactly for a leaf and 2 exactly when both children are present |
| AvlNode.DeepCopy | AVLTree.cpp:12-28 | the copy has the same shape, keys, values and cached heights as the original |
| AvlNode.EmittedKeys | AVLTree.cpp:344-358 | the keys written are exactly the in-order key sequence, strictly ascending when the tree is ordered |
| Rebalance.RotateToRight | AVLTree.cpp:309-324 | the left child becomes the root and takes the old root as its right child, which takes the child's right subtree. The in-order entries and BST order are unchanged. The old root's height is recomputed before the new root's, so both caches are sound when the three moved subtrees' caches are |
| Rebalance.RotateToLeft | AVLTree.cpp:327-342 | mirror image of `RotateToRight`, with the same guarantees |
| Rebalance.BalanceNode | AVLTree.cpp:257-306 | keeps the in-order entries and BST order. It returns the node unchanged when the balance is within [-1, 1]. For a node with a sound cache, balanced subtrees and balance within [-2, 2], it returns an AVL tree at most one lower |
| Rebalance.LeftLeftFix | AVLTree.cpp:268-276 | in the left-left case one right rotation yields an AVL tree at most one lower |
| Rebalance.LeftRightFix | AVLTree.cpp:277-283 | in the left-right case the double rotation yields an AVL tree at most one lower |
| Rebalance.RightRightFix | AVLTree.cpp:288-296 | in the right-right case one left rotation yields an AVL tree at most one lower |
| Rebalance.RightLeftFix | AVLTree.cpp:297-303 | in the right-left case the double rotation yields an AVL tree at most one lower |
| Insertion.InsertNode | AVLTree.cpp:40-81 | fails exactly when the key is present, returning the subtree untouched. Otherwise the in-order entries are the old ones with the new entry in sorted position, and the keys gain the new key. BST order is kept. An empty subtree becomes a height-1 leaf. An AVL tree stays AVL and grows by at most one level |
| Insertion.SideOfKey | AVLTree.cpp:49-58 | in an ordered tree a key other than the node's can only be on the side the comparison picks |
| Insertion.InsertedLeft | AVLTree.cpp:55-56 | inserting into the left subtree is inserting into the whole tree's in-order sequence |
| Insertion.InsertedRight | AVLTree.cpp:57-58 | inserting into the right subtree is inserting into the whole tree's in-order sequence |
| Insertion.GrownChild | AVLTree.cpp:66-78 | after one subtree of an AVL node grows by at most one and the height is recomputed, the node is ready for `balanceNode` and its height grew by at most one |
| Removal.FindSuccessor | AVLTree.cpp:120-125 | following left children from the right child reaches a node with no left child, holding the subtree's first in-order entry |
| Removal.RemoveAt | AVLTree.cpp:145-205 | fails exactly when the key is absent, returning the subtree untouched. Otherwise the in-order entries lose the key's entry and nothing else, the keys lose the key, and BST order is kept. An AVL tree stays AVL and shrinks by at most one level when the key's node had at most one child. When the key is at a root with two children, the result keeps the root's cached height and left subtree and holds the right subtree's first entry at the root (the `else` branch at lines 200-203 returns `removeNode`'s result unchanged) |
| Removal.RemoveNode | AVLTree.cpp:83-142 | fails only on a null node. A leaf becomes empty and a node with one child becomes that child. A node with two children takes its successor's key and value, keeps its own cached height and left subtree, and gets the successor removed from its right subtree. Either way the node's entry alone leaves the in-order sequence and BST order is kept |
| Removal.KeyOnSide | AVLTree.cpp:154-203 | the `<`, `>` and equal branches of `remove` go to the only place that can hold the key |
| Removal.DeletedLeft | AVLTree.cpp:154-158 | deleting from the left subtree is deleting from the whole tree's in-order sequence |
| Removal.DeletedRight | AVLTree.cpp:179-183 | deleting from the right subtree is deleting from the whole tree's in-order sequence |
| Removal.DeletedRoot | AVLTree.cpp:92-114 | removing a node with at most one child leaves the other side as the in-order sequence |
| Removal.OnlyChildHeight | AVLTree.cpp:92-114 | in an AVL tree, replacing a node with at most one child by its other side lowers the height by exactly one; a node with exactly one child has height 2 and that child is a leaf |
| Removal.LeftmostKey | AVLTree.cpp:116-125 | every key of an ordered subtree is its first in-order key or above it, so the successor is the minimum of the right subtree |
| Removal.SuccessorHasNoTwoChildren | AVLTree.cpp:137-139 | the successor node has no left child, so its removal from the right subtree is a zero- or one-child removal |
| Removal.DeletedSuccessor | AVLTree.cpp:128-139 | overwriting with the successor and removing it from the right subtree deletes exactly the node's own entry from the in-order sequence |
| Removal.DeletedSuccessorOrdered | AVLTree.cpp:128-139 | the overwritten node is ordered and holds the old keys minus its own |
| Removal.ShrunkChild | AVLTree.cpp:160-198 | after one subtree of an AVL node shrinks by at most one and the height is recomputed, the node is ready for `balanceNode`. If its height dropped, no rotation is needed |
| Container.AvlTree.constructor | AVLTree.cpp:207 | the default constructor makes an empty tree |
| Container.AvlTree.Copy | AVLTree.cpp:7-9 | the copy constructor gives a tree with the same root structure and contents |
| Container.AvlTree.Insert | AVLTree.cpp:31-33 | `insert` on the root keeps BST order, fails exactly on a present key without change, and adds the entry in sorted position. AVL shape is preserved |
| Container.AvlTree.Remove | AVLTree.cpp:36-38 | `remove` on the root keeps BST order, fails exactly on an absent key without change, and deletes the key's entry. AVL shape is guaranteed only when the key's node had at most one child |
| Container.AvlTree.GetTreeHeight | AVLTree.cpp:251-253 | the cached root height is the real height when the cache is sound, and logarithmic in the size for an AVL tree |
| Container.AvlTree.Printed | AVLTree.cpp:344-358 | the keys `operator<<` writes are the in-order keys of the contents, ascending for an ordered tree |
| Findings.ThroughInt | AVLTree.cpp:129-131 | copying a `size_t` through a 32-bit `int` returns it unchanged exactly when it is below 2^31 or at least 2^64 - 2^31, and always keeps it modulo 2^32 |
| Findings.ThroughIntLosesValues | AVLTree.cpp:129-131 | 2^32 comes back as 0 and 2^31 as 2^64 - 2^31 |
| Findings.UnbalancedAfterRemove | AVLTree.cpp:133-135 | removing the root d of the AVL tree d(b(a, c), e) yields a root with balance factor 2 |
| Findings.StaleHeightAfterRemove | AVLTree.cpp:200-203 | removing the root d of the AVL tree d(a, e(-, f)) yields a root with cached height 3 but real height 2 |
| Findings.RemoveAtFixed | AVLTree.cpp:145-205 | `remove` with the missing fix-up has the contract of `Removal.RemoveAt`, and every AVL tree stays AVL and shrinks by at most one level |
| Findings.RemoveNodeFixed | AVLTree.cpp:83-142 | `removeNode` that recomputes the overwritten node's height and rebalances it deletes the node's entry and keeps an AVL tree AVL, at most one level lower |
| Findings.Refresh | AVLTree.cpp:160-173 | the height recomputation and `balanceNode` after a child shrank by at most one keep the entries and order, and restore AVL shape at most one level lower |

## Left out

- Nodes are immutable datatype values, not heap objects. The model does not capture pointer identity or aliasing. So `DeepCopy` is proved to give an equal tree, and "shares no nodes with the original" is not stated.
- `searchAndDestroy` and the destructor only free memory, which Dafny has no counterpart for. Allocation failure of `new` is also left out.
- The `ostream` side of `operator<<` is left out. The model gives the sequence of keys written (they are written with no separator), not the stream.
- The operations declared in `AVLTree.h` without a body in the source are left out, because there is no code to model: `contains`, `get`, `operator[]`, `findRange`, `keys`, `size`, `getHeight`, `operator=`, `containsNode`, `getNode`, `nodeOperator`.
- The class keeps no size counter (`AVLTree.h:61` declares only `root`), so none is modelled.
- Characters compare by code point, which is the same as `std::string`'s `<` on `char` only for characters of one byte, read unsigned.
- Heights are unbounded `nat`s. `getNodeHeight` returns `int` and `balanceNode` subtracts in `int`; heights of real trees fit, so this narrowing is not modelled.
- Removal.RemoveAt: promises the height cache and AVL balance only when the removed key's node has at most one child. They are not guaranteed in the two-child case, where the code sometimes breaks them (see Findings). For a two-child node at the root it states the overwrite's shape instead (`Removal.SuccessorOverwrite`).
- Container.AvlTree.Remove: same restriction as `Removal.RemoveAt`, for the same reason.
- The main model copies the successor's value exactly. It does not narrow it through `int` at `AVLTree.cpp:129`; the narrowing is modelled separately as `Findings.ThroughInt`.

## Findings

| source | as written | input that shows it | evidently intended | confidence | as-written member | corrected member |
|---|---|---|---|---|---|---|
| AVLTree.cpp:129-131 | the successor's `size_t` value is copied through an `int` local, which keeps the low 32 bits, sign-extended, where `int` is 32 bits wide | a two-child node whose successor has value 2^32: the node gets value 0 | the value is copied unchanged | not executed | Findings.ThroughInt | Removal.RemoveNode |
| AVLTree.cpp:133-135 | after a two-child node is overwritten by its successor, its height is not recomputed and it is not rebalanced. The caller only fixes up after recursing into a child (lines 200-203), so a root removal leaves an unbalanced root | AVL tree d(b(a, c), e), remove "d": root e(b(a, c), -) with balance factor 2 | removal keeps an AVL tree AVL | not executed | Findings.UnbalancedAfterRemove | Findings.RemoveNodeFixed |
| AVLTree.cpp:200-203 | the overwritten node keeps its old cached height when its right subtree shrank | AVL tree d(a, e(-, f)), remove "d": root e(a, f) with cached height 3, real height 2 | the cached height stays the real height | not executed | Findings.StaleHeightAfterRemove | Findings.RemoveAtFixed |

`Container.AvlTree.Remove` keeps the behaviour of the code as written. The corrected removal is in `Findings`, beside the counterexamples.
