/**
 * Cached-height bookkeeping and the node-local decisions of the AVL fixups
 * (avlbst.h): recomputing a height, testing whether it would change, testing
 * balance, choosing the taller child and the grandchild, and naming the four
 * imbalance cases.
 *
 * Every helper reads only the cached heights of a node's children, with an
 * absent child counting as 0.
 */
module AvlHeights {
  import opened Trees

  /** caclHeight: 1 + the larger cached child height. */
  function CalcHeight<V>(t: Tree<V>): (h: int)
    requires t.Node?
    ensures h > H(t.left) && h > H(t.right)
    ensures h == H(t.left) + 1 || h == H(t.right) + 1
  {
    1 + Max(H(t.left), H(t.right))
  }

  /** updateHeight: store the recomputed height; a null node is left alone. */
  function UpdateHeight<V>(t: Tree<V>): (r: Tree<V>)
    ensures t.Leaf? ==> r.Leaf?
    ensures t.Node? ==> r.Node? && r.left == t.left && r.right == t.right && r.key == t.key && r.val == t.val
    ensures t.Node? ==> (HeightsOk(r) <==> HeightsOk(t.left) && HeightsOk(t.right))
    ensures Items(r) == Items(t) && Keys(r) == Keys(t) && ToMap(r) == ToMap(t) && Ordered(r) == Ordered(t)
  {
    match t
    case Leaf => Leaf
    case Node(l, k, v, _, r) => Node(l, k, v, CalcHeight(t), r)
  }

  /** willHeightChange: would updateHeight alter this node? */
  function WillHeightChange<V>(t: Tree<V>): (b: bool)
    requires t.Node?
    ensures b <==> UpdateHeight(t) != t
    ensures !b && HeightsOk(t.left) && HeightsOk(t.right) ==> HeightsOk(t)
  {
    CalcHeight(t) != t.height
  }

  /**
   * parentHeightChange(node) runs the willHeightChange computation on node's
   * parent; the caller here passes that parent (the insertion grandparent).
   */
  function ParentHeightChange<V>(parent: Tree<V>): (b: bool)
    requires parent.Node?
    ensures b <==> UpdateHeight(parent) != parent
  {
    WillHeightChange(parent)
  }

  /**
   * checkIfBalanced: balance on cached heights, true for null.  When the
   * children's caches are consistent this is balance on the true heights.
   */
  function CheckIfBalanced<V>(t: Tree<V>): (b: bool)
    ensures t.Leaf? ==> b
    ensures t.Node? && HeightsOk(t.left) && HeightsOk(t.right) ==>
              (b <==> -1 <= TrueHeight(t.left) - TrueHeight(t.right) <= 1)
    ensures Balanced(t) ==> b
  {
    if t.Leaf? then true
    else
      TrueHeightWhenCached(t.left);
      TrueHeightWhenCached(t.right);
      var d := H(t.right) - H(t.left);
      -1 <= d <= 1
  }

  /** getGreaterChild: the taller child, ties broken toward the right. */
  function GetGreaterChild<V>(t: Tree<V>): (d: Dir)
    requires t.Node?
    ensures H(Child(t, d)) >= H(Child(t, Opposite(d)))
    ensures H(t.left) == H(t.right) ==> d == Right
  {
    if H(t.left) > H(t.right) then Left else Right
  }

  /**
   * getG: the taller child of c; when c's children tie, the one on the same
   * side as c hangs from its parent, so that the case is classified zig-zig.
   */
  function GetG<V>(c: Tree<V>, cSide: Dir): (d: Dir)
    requires c.Node?
    ensures H(Child(c, d)) >= H(Child(c, Opposite(d)))
    ensures H(c.left) == H(c.right) ==> d == cSide
  {
    if H(c.right) == H(c.left) then cSide
    else if H(c.right) > H(c.left) then Right
    else Left
  }

  const LeftLeft: int := 1
  const LeftRight: int := 2
  const RightRight: int := 3
  const RightLeft: int := 4

  /**
   * identifyImbalanceType: y is z's child on side ySide, x is y's child on
   * side xSide.  The code is at most 2 exactly when y is a left child, and
   * odd exactly for the zig-zig cases.
   */
  function IdentifyImbalanceType(ySide: Dir, xSide: Dir): (code: int)
    ensures 1 <= code <= 4
    ensures code <= 2 <==> ySide == Left
    ensures code % 2 == 1 <==> ySide == xSide
  {
    match (ySide, xSide)
    case (Left, Left) => LeftLeft
    case (Left, Right) => LeftRight
    case (Right, Right) => RightRight
    case (Right, Left) => RightLeft
  }
}
