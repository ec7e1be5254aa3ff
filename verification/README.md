# AVL tree over a binary search tree, in Dafny

This project models the ordered map of `bst.h` and `avlbst.h`. `BinarySearchTree<Key, Value>` is an
unbalanced binary search tree with parent pointers, iterators, successor/predecessor navigation and a
positional `nodeSwap`. `AVLTree<Key, Value>` derives from it. It keeps a cached height in every node
and restores the AVL balance condition after each `insert` and `remove`, using four rotation primitives
and the `insertFix` and `removeFix` walks.

The model is functional. A tree is the immutable datatype
`Tree<V> = Leaf | Node(left, key, val, height, right)`. `Leaf` stands for a null child, and `H(Leaf) == 0`.
Every public operation is a pure function from the old tree to the new one. The model is proved against
three abstractions:

- the in-order item sequence `Items`;
- the key set `Keys`;
- the key→value map `ToMap`.

It is also proved against three invariants:

- `Ordered`: search-tree ordering;
- `HeightsOk`: every cached height equals 1 + the larger child height, with an absent child counting as 0;
- `Balanced`: child heights differ by at most 1 at every node.

`Avl` is the conjunction of the three, and `AvlShape` is the last two.

Modules and files:

- `trees.dfy` (`Trees`): the datatype, the abstractions and the invariants, plus the basic facts and map algebra.
- `contents.dfy` (`TreeContents`): `SameContents` (same items, keys, map and ordering), and the one-level
  facts about rotating, inserting below and removing below a node.
- `avl_heights.dfy` (`AvlHeights`): the node-local helpers `caclHeight`, `updateHeight`, `willHeightChange`,
  `parentHeightChange`, `checkIfBalanced`, `getGreaterChild`, `getG` and `identifyImbalanceType`.
- `avl_rotations.dfy` (`AvlRotations`): `leftRotate` and `rightRotate` (they update heights), and the
  `*ForRemove` forms (rewiring only).
- `avl.dfy` (`Avl`): `AVLTree::insert`/`insertFix`, `remove`/`removeFix` and `nodeSwap`, their invariant
  and map proofs, the height bound, and concrete rotation scenarios.
- `bst_search.dfy` (`BstSearch`): `internalFind`, `find`, `getSmallestNode`, `begin`, `end`, `successor`,
  `predecessor`, iterator `operator++`, and a full traversal.
- `bst.dfy` (`Bst`): the plain `insert`, `remove`, `nodeSwap`, `clear`, `empty` and `isBalanced`.

How the pointer structure is represented:

- **Parent pointers.** A value tree has no parent pointers. A position inside a tree is a zipper
  `Cursor(focus, up)`, the focused subtree plus the path back to the root. "A node of t" is a cursor that
  plugs back into `t`. An iterator is an `Option<Cursor>`, and `None` is the null pointer `end()` returns.
  `Index(c)` is the focused node's position in the in-order sequence.
- **`nodeSwap`.** It is modelled on positions: a `Path` of `Left`/`Right` steps from the root. The plain
  swap exchanges the two nodes' key, value and height, since the whole node objects move. The AVL swap then
  trades the heights back, so each position keeps its height.
- **Fixup walks.** `insertFix` and `removeFix` climb through parent pointers. Here they run as the recursion
  returns. A `Walk(tree, climbing, rebalances)` carries the source's "keep ascending" decision upward. One
  `InsertFixStep`/`RemoveFixStep` is one generation of the source's loop, with the same tests in the same
  order: `parentHeightChange`, then `updateHeight`, then `checkIfBalanced` for insertion; and
  `checkIfBalanced`, then `willHeightChange` for removal. The walks therefore stop where the source stops.
  Insertion stops after its one rotation; removal keeps climbing after a rotation.

## Model

| member | source | states |
|---|---|---|
| Trees.NewNode | avlbst.h:50-55 | a freshly constructed node has no children and height 1 |
| AvlHeights.CalcHeight | avlbst.h:1123-1149 | the computed height is above both children's cached heights and exactly one more than one of them (absent child = 0) |
| AvlHeights.UpdateHeight | avlbst.h:959-992 | only the height field changes (null is left alone); the node's heights are consistent iff its children's are; items, keys, map and ordering are untouched |
| AvlHeights.WillHeightChange | avlbst.h:857-895 | true iff updateHeight would alter the node; when false and the children are consistent, the node is consistent |
| AvlHeights.ParentHeightChange | avlbst.h:1042-1082 | the willHeightChange test applied to the parent: true iff updating the parent's height would change it |
| AvlHeights.CheckIfBalanced | avlbst.h:996-1039 | true for null; with consistent children, true iff the children's true heights differ by at most 1; true on every balanced tree |
| AvlHeights.GetGreaterChild | avlbst.h:1085-1119 | the chosen child is at least as tall as the other; equal heights choose the right child |
| AvlHeights.GetG | avlbst.h:898-953 | the chosen grandchild is at least as tall as its sibling; equal heights choose the side c hangs on (zig-zig) |
| AvlHeights.IdentifyImbalanceType | avlbst.h:318-350 | codes LL=1, LR=2, RR=3, RL=4: the code is at most 2 iff y is a left child, odd iff y and x are on the same side |
| AvlRotations.RotateLeftForRemove | avlbst.h:690-763 | the right child takes the pivot's slot, the pivot becomes its left child, the inner subtree moves under the pivot, no height changes; contents and ordering are preserved |
| AvlRotations.RotateRightForRemove | avlbst.h:766-840 | the mirror image: the left child is promoted, the pivot goes right, heights untouched, contents preserved |
| AvlRotations.RotateLeft | avlbst.h:527-606 | the same rewiring followed by updateHeight of the pivot, then of the promoted node; heights are consistent when the three subtrees are; contents preserved |
| AvlRotations.RotateRight | avlbst.h:609-686 | mirror image of RotateLeft |
| AvlRotations.RotationsForRemoveInverse | avlbst.h:690-840 | a right rotation at the promoted node undoes a left rotation |
| AvlRotations.RotationsForRemoveInverse' | avlbst.h:690-840 | a left rotation at the promoted node undoes a right rotation |
| AvlRotations.RotationsInverse | avlbst.h:527-686 | on consistent heights the height-updating rotations are mutually inverse as well |
| Avl.InsertRebalance | avlbst.h:279-312 | the LL/LR/RR/RL repair chosen from getGreaterChild and identifyImbalanceType keeps contents and ordering |
| Avl.InsertRebalanceRestores | avlbst.h:279-312 | at a grandparent two taller on the side whose child leans, the repair yields a balanced, consistent subtree of the grown child's height |
| Avl.InsertFixStep | avlbst.h:262-314 | one insertFix generation keeps contents and applies at most one rebalance, after which it stops climbing |
| Avl.InsertFixStepOk | avlbst.h:262-314 | after one level of growth, the step leaves a valid AVL subtree that is either one taller and still climbing, or of unchanged height and stopped |
| Avl.ContinueInsert | avlbst.h:250-276 | a stopped walk passes through its parent unchanged; a climbing one runs the fixup step there; at most one rebalance in total |
| Avl.ContinueInsertOk | avlbst.h:246-315 | replacing a child by a walk result that grew by at most one (and leans if it grew) keeps the parent a valid AVL subtree with the same climbing/height relation |
| Avl.AttachLeaf | avlbst.h:203-225 | a new height-1 leaf goes in the empty slot; a parent of height 1 is bumped to 2 and the fixup starts, otherwise nothing more happens |
| Avl.InsertWalk | avlbst.h:176-225 | the descent plus fixup applies at most one rebalance, and none once the walk has stopped climbing |
| Avl.InsertWalkShape | avlbst.h:161-315 | on a valid AVL tree the walk yields a valid AVL tree, one taller (and leaning) if still climbing, else of the same height |
| Avl.InsertWalkContents | avlbst.h:176-225 | the key set gains k; on an ordered tree the result is ordered and its map is the old map with k set to v |
| Avl.InsertExistingKeyWalk | avlbst.h:196-201 | an existing key overwrites the value only: same keys and heights in the same places, no climbing, no rotation |
| Avl.Insert | avlbst.h:161-227 | an empty tree gets a single fresh root; the AVL invariants are preserved; the map becomes the old map with k set to v; an existing key changes no node or height; the height grows by at most 1 |
| Avl.InsertIdempotent | avlbst.h:196-201 | inserting the same pair a second time changes nothing |
| Avl.RemoveRebalance | avlbst.h:437-493 | the removeFix repair chosen with getGreaterChild, getG and identifyImbalanceType, including its height updates, keeps contents |
| Avl.UpdateAfterDouble | avlbst.h:463-465 | the heights of both lower nodes are updated and then the top's; consistent heights result when the four subtrees are consistent |
| Avl.DoubleRotationsAgree | avlbst.h:456-468 | the ForRemove double rotation followed by the three height updates equals the insertion double rotation |
| Avl.DoubleRotationsAgree' | avlbst.h:481-492 | mirror image |
| Avl.RemoveRebalanceRestores | avlbst.h:437-493 | at a node two taller on one side the repair yields a valid AVL subtree whose height is that of the taller child or one more |
| Avl.RemoveFixStep | avlbst.h:423-505 | one removeFix generation keeps contents, rotates exactly when the node is unbalanced, and stops only when it is balanced and its height would not change |
| Avl.RemoveFixStepOk | avlbst.h:423-505 | on a node whose child shrank by at most one, the step leaves a valid AVL subtree of the same height or one less, and the same height when it stops |
| Avl.RemoveFixContinuesAfterRotation | avlbst.h:446-492 | after a rotation removeFix always moves on to the parent |
| Avl.RemoveFixStopIsIdentity | avlbst.h:495-498 | at a node that is already valid, removeFix stops without changing anything |
| Avl.ContinueRemove | avlbst.h:420-434 | a stopped walk passes through the parent unchanged; contents are kept |
| Avl.ContinueRemoveOk | avlbst.h:423-505 | a child that shrank by at most one keeps the parent a valid AVL subtree that shrinks by at most one, and by nothing once stopped |
| Avl.RemoveLeftmostWalk | avlbst.h:367-421 | splicing out the leftmost node of an AVL subtree and fixing up leaves a valid subtree at most one shorter, and no shorter once the walk stops; on an ordered subtree the spliced-out pair is the minimum: the rest is ordered, lies above it, and together with it gives the old map |
| Avl.RemoveWalk | avlbst.h:353-505 | removal plus fixup keeps a valid AVL subtree, shortening it by at most one and by nothing once the walk stops; on an ordered subtree the result is ordered, its map is the old map without k and its key set loses exactly k; an absent key changes nothing and starts no fixup |
| Avl.Remove | avlbst.h:353-421 | the AVL invariants are preserved; the map loses exactly k; an absent key leaves the tree identical; the height drops by at most 1 |
| Avl.NodeSwap | avlbst.h:509-516 | the two positions exchange keys and values while each keeps its own cached height, every other height stays in place, and so height consistency and balance hold after exactly when they held before |
| Avl.AvlHeightLogarithmic | avlbst.h:161-505 | a tree with the invariants insert and remove keep, of height h, holds at least 2^(h/2) - 1 items |
| Avl.InsertAll | avlbst.h:161-227 | successive inserts keep the AVL invariants and produce the map of the upserts applied in order (later values win) |
| Avl.RemoveAll | avlbst.h:353-421 | successive removals keep the AVL invariants and remove exactly the given keys |
| Avl.InsertThenRemoveAllEmpties | avlbst.h:161-421 | inserting a batch and removing all of its keys leaves an empty, balanced tree whose begin equals end |
| Avl.DescendingInsertsRotateRight | avlbst.h:287-292 | inserting 3, 2, 1 performs one right rotation: root 2 of height 2 with leaves 1 and 3 of height 1 |
| Avl.AscendingInsertsRotateLeft | avlbst.h:300-305 | inserting 1, 2, 3 performs one left rotation and gives the same tree |
| Avl.ZigZagInsertsRotateTwice | avlbst.h:293-299 | inserting 3, 1, 2 performs the left-right double rotation and gives the same tree |
| BstSearch.Leftmost | bst.h:347-351 | following left children ends at a node with no left child, in the same tree, at the first in-order position of the subtree started from |
| BstSearch.Rightmost | bst.h:613-621 | following right children ends at a node with no right child, in the same tree, at the last in-order position of the subtree started from |
| BstSearch.GetSmallestNode | bst.h:682-698 | null exactly for the empty tree, otherwise a node without a left child |
| BstSearch.SmallestIsFirst | bst.h:682-698 | the node found is the first in in-order position and carries the minimum key |
| BstSearch.Begin | bst.h:420-426 | begin() is null exactly for the empty tree; otherwise it is a node of the same tree at in-order position 0 and, on an ordered tree, carries the smallest key |
| BstSearch.End | bst.h:431-438 | end() is the null iterator |
| BstSearch.FindFrom | bst.h:705-731 | a result carries k and is a node of the same tree; on an ordered subtree below the starting point a result exists iff k is one of its keys |
| BstSearch.InternalFind | bst.h:705-731 | a result is a node of the same tree carrying k; on an ordered tree a result exists iff k is a key, and it sits at k's in-order position with k's mapped value |
| BstSearch.Find | bst.h:444-453 | a result is a node of the same tree carrying k; on an ordered tree a result exists iff k is a key (otherwise the end iterator), and it sits at k's in-order position with k's mapped value |
| BstSearch.Successor | bst.h:338-370 | the result, when present, is a node |
| BstSearch.ClimbWhileRightChild | bst.h:357-367 | climbing from a subtree stops at the node just after that subtree's items in in-order position, in the same tree; null means the subtree's items run to the end of the tree |
| BstSearch.ClimbWhileLeftChild | bst.h:628-640 | climbing from a subtree stops at the node just before that subtree's items in in-order position, in the same tree; null means nothing comes before the subtree |
| BstSearch.SuccessorIsNext | bst.h:338-370 | the successor is the next in-order position, and null exactly at the last |
| BstSearch.SuccessorIsNextLargerKey | bst.h:338-370 | on an ordered tree the successor has the smallest key above the current one; null means no larger key exists |
| BstSearch.Predecessor | bst.h:600-643 | null maps to null; from a node it moves to the previous in-order position of the same tree, and gives null exactly at the first |
| BstSearch.PredecessorOfSuccessor | bst.h:338-370 | predecessor undoes successor |
| BstSearch.Advance | bst.h:330-336 | operator++ moves to the next in-order position of the same tree and gives null exactly from the last one; on an ordered tree the new key is the smallest one above the old |
| BstSearch.Traverse | bst.h:330-438 | iterating from begin() with ++ until end() visits exactly the in-order items, in strictly ascending key order on an ordered tree |
| Bst.Insert | bst.h:459-510 | the key set gains k; ordering is kept and the map is updated at k; an existing key changes only its value; a new key adds exactly one item |
| Bst.InsertIdempotent | bst.h:493-498 | inserting the same pair again changes nothing |
| Bst.SpliceLeftmost | bst.h:531-537 | the successor that is spliced out is the first item of the subtree, and the rest keeps the order and the map |
| Bst.Remove | bst.h:517-597 | an absent key is a no-op; on an ordered tree the result is ordered and loses exactly the entry for k |
| Bst.RemoveUndoesInsert | bst.h:459-597 | removing a freshly inserted absent key restores the original tree exactly |
| Bst.SetPayload | bst.h:772-854 | rewriting one node's payload keeps every node position |
| Bst.NodeSwap | bst.h:772-854 | node positions are kept; a swap with itself or with a missing node changes nothing |
| Bst.NodeSwapMoves | bst.h:772-854 | after the swap each position holds the other's key, value and height, and every other position is unchanged |
| Bst.NodeSwapTwice | bst.h:772-854 | swapping twice restores the tree |
| Bst.NodeSwapSymmetric | bst.h:772-854 | the order of the two nodes does not matter |
| Bst.Clear | bst.h:651-661 | the tree becomes empty: no items, empty map |
| Bst.Empty | bst.h:404-408 | true iff the tree has no items, equivalently iff its map is empty |
| Bst.IsBalancedHelper | bst.h:745-768 | returns the recomputed height (null = -1) and whether every node's recomputed child heights differ by at most 1 |
| Bst.IsBalanced | bst.h:736-743 | true iff every node is balanced on recomputed heights, cached heights ignored |
| Bst.IsBalancedMatchesCache | bst.h:736-768 | on consistent cached heights, isBalanced agrees with balance on the cached heights |

## Left out

- Keys are `int`. The source only compares keys with `<`, `>` and `==`, so any strict total order would behave the same.
- Printing (`print`, `printRoot`) is console output.
- Memory management is left out: `delete`, the destructor, and the post-order `recursiveClear` (bst.h:663-676). `clear` is modelled only as "the tree becomes empty".
- C++ mechanics are left out: the virtual getter overrides, the `static_cast`s between `Node` and `AVLNode`, the iterator's `operator*`, `operator->` and `==`/`!=` on pointers, and the unused `KeyError`.
- There is no concurrency.
- Parent pointers are not stored. They are implicit in the value tree and in the `Cursor` path, so the source's parent-link updates in insert, remove, the rotations and `nodeSwap` have no counterpart.
- A plain `Node` of bst.h has no height field. The one datatype carries a height that the plain BST operations store but never read (new nodes get 1).
- The rotations' empty null guards (e.g. avlbst.h:531-533) are modelled as preconditions: the pivot and the promoted child are nodes.
- Where insertFix or removeFix would dereference null, the model returns the subtree unchanged. That happens at a null taller child, or at a zig-zag whose grandchild is null, which needs a node with a cached height of zero or less. InsertRebalanceRestores and RemoveRebalanceRestores show neither branch is reached on a tree whose invariants hold.
- `identifyImbalanceType` compares pointers (`y->getLeft() == x`), so a null x equals a null child of y. The model classifies by the side each child was taken from. A childless y counts as lying on its own side, which gives a zig-zig, as the pointer comparison does. getG already sends a childless c to its own side, so removal needs no such adjustment.
- The source's loops are modelled as structural recursion. These are the descent loops of insert, internalFind and getSmallestNode, and the climbing loops of successor and predecessor.
- AVL `remove` does not call Avl.NodeSwap by position. Avl.RemoveWalk instead puts the successor's key and value at the removed node's position with that position's height, which is what nodeSwap followed by the splice produces.
- Bst.Remove also works in place, but differs in one detail. It moves the successor's key, value and cached height into the removed node's position, because the plain nodeSwap moves whole nodes. The plain tree never reads that height. The model does not separately prove that this equals running Bst.NodeSwap and then splicing.
- Avl.AvlHeightLogarithmic: the bound is stated as 2^(h/2) - 1 items, weaker than the Fibonacci bound an AVL tree actually guarantees. It is enough to show the height is logarithmic.
