# AdvancedBinaryNode — a verified model

`AdvancedBinaryNode<Type>` (src/AdvancedBinaryNode.h) is the node of a
height-balanced binary search tree such as an AVL tree. On top of a plain
binary node (a value and left/right child links) it keeps a non-owning link to
its parent and a cached subtree height. It offers three read-only queries,
`parent()`, `is_root()` and `height()`, and one update, `update_height()`,
which sets the cached height to one more than the larger of the two children's
heights. An absent child has height -1, so a leaf gets height 0.

The model has two modules.

- `Trees` (trees.dfy) is the value-level picture. A subtree slot is
  `Empty` (a null pointer) or a `Node` with two child slots, a value and a
  cached height. Beside the cached height there is the true, structural
  height, and independently of both, downward paths: a list of left/right
  steps from a node to a node below it. `UpdateHeight` is the recompute of
  one node. `UpdateBottomUp` applies it to every node, children first. The
  lemmas show that the bottom-up pass makes every cached height equal both the
  structural height and the length of the longest downward path. They also
  show that recomputing one node does not repair its ancestors.
- `Nodes` (nodes.dfy) is the heap class `AdvancedBinaryNode<T>` with the
  fields `value`, `left`, `right`, `parentNode` and `treeHeight`. The ghost
  field `repr` holds the nodes of the subtree rooted there. `Valid()` says that
  the child links form a finite tree. `AsTree` reads the subtree below a node
  into a `Trees.Tree`, with every node's cached height. `UpdateHeight` is a
  method that may change `treeHeight` only. On a valid node, its effect on
  `AsTree(this)` is exactly `Trees.UpdateHeight`, so the lemmas of `Trees`
  carry over to the heap. `HeightOf` is the height of a child slot, -1 when
  the slot is null. It is a free function on the nullable reference, so no
  method is ever called through a null receiver.

`ChainHeights` and `ParentLinks` are clients of the class. They build a chain
of three nodes and a parent with one child, and state the heights and parent
links that the node's contracts guarantee.

Where the code and its intent differ, the model follows the intent:

- The constructor's initializer list (src/AdvancedBinaryNode.h:28) writes
  `parent{p}`, which names the member function rather than the field. The model
  stores `p` in `parentNode`, which the declaration evidently means.
- The constructor does not initialize `tree_height`. The model's constructor
  leaves `treeHeight` unspecified too: its contract says nothing about it until
  `UpdateHeight` runs. This is why "height at least 0 after an update" is only
  stated for children whose reported heights are at least -1. With
  uninitialized children the C++ code can produce any value.
- The constructor stores the child links but does not set the children's own
  parent links. That is also true in the model. `Valid()` therefore constrains
  child links only, never parent links.

## Model

| member | source | states |
|---|---|---|
| `Nodes.AdvancedBinaryNode.constructor` | src/AdvancedBinaryNode.h:15-16 | the node keeps the given value and child links; `Parent()` is the given parent, and the node is a root exactly when that parent is null (so when it is left at its null default); built over two disjoint finite subtrees it heads a finite tree whose value picture is a node over the children's pictures; the cached height is unspecified |
| `Nodes.AdvancedBinaryNode.Parent` | src/AdvancedBinaryNode.h:31-33 | a const query that hands back the stored parent link unchanged |
| `Nodes.AdvancedBinaryNode.IsRoot` | src/AdvancedBinaryNode.h:36-38 | a const query that is true exactly when `Parent()` is null |
| `Nodes.AdvancedBinaryNode.Height` | src/AdvancedBinaryNode.h:41-43 | a const query that reports the cached height of a present node |
| `Nodes.HeightOf` | src/AdvancedBinaryNode.h:42 | the height of a child slot is -1 when the slot is null and the node's `Height()` otherwise |
| `Nodes.AdvancedBinaryNode.UpdateHeight` | src/AdvancedBinaryNode.h:46-48 | the new cached height is one more than the larger of the children's previous reported heights; value, child links, parent link and footprint are unchanged and nothing else may be written; a valid node stays valid and its value picture changes exactly as `Trees.UpdateHeight` says; if both children's caches were correct, the whole subtree's caches are correct afterwards |
| `Nodes.AsTree` | src/AdvancedBinaryNode.h:9-10 | the value picture of a slot is empty exactly for a null slot, and its reported height is the slot's `HeightOf` |
| `Nodes.ChainHeights` | src/AdvancedBinaryNode.h:46-48 | a childless node recomputed gets height 0; a node over it, recomputed, gets 1; a node over that one gets 2 |
| `Nodes.ParentLinks` | src/AdvancedBinaryNode.h:26-38 | a node built with a parent hands back that same node from `Parent()` and is not a root; a node built with the default null parent is a root |
| `Trees.UpdateHeight` | src/AdvancedBinaryNode.h:47 | recomputing one node keeps its value and child links; with no children its height becomes 0; with children reporting at least -1 it becomes at least 0; if both child subtrees cache correct heights, so does the recomputed subtree |
| `Trees.StructuralHeight` | src/AdvancedBinaryNode.h:42 | the true height is at least -1, and it is -1 exactly for an absent slot |
| `Trees.UpdateBottomUp` | src/AdvancedBinaryNode.h:47 | recomputing every node, children before parents, keeps every link and value and leaves every node caching its structural height |
| `Trees.BottomUpCachesLongestPaths` | src/AdvancedBinaryNode.h:47 | after the bottom-up pass, at every node of the tree, the cached height bounds the length of every downward path from that node and is reached by one of them |
| `Trees.CachedHeightIsLongestPath` | src/AdvancedBinaryNode.h:47 | in a tree whose caches are correct, the root's cached height is the length of its longest downward path |
| `Trees.PathNoLongerThanHeight` | src/AdvancedBinaryNode.h:47 | no downward path from a node is longer than its structural height |
| `Trees.LongestPath` | src/AdvancedBinaryNode.h:47 | from every node some downward path is exactly as long as its structural height |
| `Trees.SubtreesOfCorrectAreCorrect` | src/AdvancedBinaryNode.h:47 | every subtree of a tree with correct caches has correct caches |
| `Trees.CorrectTreeIsFixpoint` | src/AdvancedBinaryNode.h:47 | the bottom-up pass leaves a tree with correct caches exactly as it is |
| `Trees.LocalUpdateDoesNotPropagate` | src/AdvancedBinaryNode.h:47 | after a leaf is attached below the child of a correct tree and only that child is recomputed, the child is correct but the root's cache is stale until the root is recomputed too |

## Left out

- `BinaryNode` and `BinaryTree` are not part of this model. Only their
  visible effect is modelled: a node has a value and left/right child slots.
  The friend access of `BinaryTree` and any rewiring of links after
  construction (insert, delete, rotate) are not modelled. No such operation
  exists in this file.
- The `this == nullptr` test in `height()` (src/AdvancedBinaryNode.h:42) is
  undefined behaviour in C++. The model gives it a defined meaning through
  `Nodes.HeightOf` on a nullable slot, which is -1 for null.
- Memory ownership, destruction of children and dangling parent pointers are
  C++ resource management, not logic. They are left out.
- The template parameter `Type` becomes a Dafny type parameter. No
  requirement on it is modelled.
- `int` is modelled as an unbounded integer. Heights of a tree that fits in
  memory are far below 32-bit overflow.
