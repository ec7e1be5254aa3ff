/**
 * The four rotation primitives of avlbst.h.
 *
 * Rotating pivot z promotes its child y into z's slot (under z's old parent,
 * or as the new root); z becomes y's child, and y's inner subtree is re-hung
 * under z.  In a value tree the parent's slot is the position the result is
 * returned to, so the rewiring of the old parent is implicit.
 *
 * `RotateLeft`/`RotateRight` (insertion) recompute the heights of z and then
 * y; the `ForRemove` variants only rewire and leave every cached height as it
 * was, for the caller to recompute.
 */
module AvlRotations {
  import opened Trees
  import opened AvlHeights
  import opened TreeContents

  /** leftRotateForRemove: rewiring only. */
  function RotateLeftForRemove<V>(z: Tree<V>): (r: Tree<V>)
    requires z.Node? && z.right.Node?
    ensures r.Node? && r.left.Node?
    ensures r.key == z.right.key && r.val == z.right.val && r.height == z.right.height
    ensures r.left.key == z.key && r.left.val == z.val && r.left.height == z.height
    ensures r.left.left == z.left && r.left.right == z.right.left && r.right == z.right.right
    ensures SameContents(r, z)
  {
    var y := z.right;
    RotationKeepsContents(z.left, z.key, z.val, y.left, y.key, y.val, y.right, z.height, y.height, z.height, y.height);
    Node(Node(z.left, z.key, z.val, z.height, y.left), y.key, y.val, y.height, y.right)
  }

  /** rightRotateForRemove: rewiring only. */
  function RotateRightForRemove<V>(z: Tree<V>): (r: Tree<V>)
    requires z.Node? && z.left.Node?
    ensures r.Node? && r.right.Node?
    ensures r.key == z.left.key && r.val == z.left.val && r.height == z.left.height
    ensures r.right.key == z.key && r.right.val == z.val && r.right.height == z.height
    ensures r.right.right == z.right && r.right.left == z.left.right && r.left == z.left.left
    ensures SameContents(r, z)
  {
    var y := z.left;
    RotationKeepsContents(y.left, y.key, y.val, y.right, z.key, z.val, z.right, y.height, z.height, y.height, z.height);
    Node(y.left, y.key, y.val, y.height, Node(y.right, z.key, z.val, z.height, z.right))
  }

  /** leftRotate: the same rewiring, then updateHeight(z) and updateHeight(y). */
  function RotateLeft<V>(z: Tree<V>): (r: Tree<V>)
    requires z.Node? && z.right.Node?
    ensures r.Node? && r.left.Node?
    ensures var w := RotateLeftForRemove(z);
              r == UpdateHeight(Node(UpdateHeight(w.left), w.key, w.val, w.height, w.right))
    ensures HeightsOk(z.left) && HeightsOk(z.right.left) && HeightsOk(z.right.right) ==> HeightsOk(r)
    ensures SameContents(r, z)
  {
    var w := RotateLeftForRemove(z);
    UpdateHeight(Node(UpdateHeight(w.left), w.key, w.val, w.height, w.right))
  }

  /** rightRotate: the same rewiring, then updateHeight(z) and updateHeight(y). */
  function RotateRight<V>(z: Tree<V>): (r: Tree<V>)
    requires z.Node? && z.left.Node?
    ensures r.Node? && r.right.Node?
    ensures var w := RotateRightForRemove(z);
              r == UpdateHeight(Node(w.left, w.key, w.val, w.height, UpdateHeight(w.right)))
    ensures HeightsOk(z.right) && HeightsOk(z.left.left) && HeightsOk(z.left.right) ==> HeightsOk(r)
    ensures SameContents(r, z)
  {
    var w := RotateRightForRemove(z);
    UpdateHeight(Node(w.left, w.key, w.val, w.height, UpdateHeight(w.right)))
  }

  /** A left rotation followed by a right rotation at the promoted node undoes it. */
  lemma RotationsForRemoveInverse<V>(z: Tree<V>)
    requires z.Node? && z.right.Node?
    ensures RotateRightForRemove(RotateLeftForRemove(z)) == z
  {
  }

  lemma RotationsForRemoveInverse'<V>(z: Tree<V>)
    requires z.Node? && z.left.Node?
    ensures RotateLeftForRemove(RotateRightForRemove(z)) == z
  {
  }

  /** On a tree with consistent heights the height-updating rotations are mutually inverse too. */
  lemma RotationsInverse<V>(z: Tree<V>)
    requires z.Node? && z.right.Node? && HeightsOk(z)
    ensures RotateRight(RotateLeft(z)) == z
  {
  }
}
