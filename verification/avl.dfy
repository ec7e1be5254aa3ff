/**
 * AVLTree::insert and AVLTree::remove with their fixup walks (avlbst.h).
 *
 * Both operations edit the linked structure and then walk parent pointers
 * upward (insertFix, removeFix).  Here the edit happens at the bottom of a
 * recursive descent and the walk happens as the recursion returns: each level
 * receives a `Walk` saying whether the upward fixup is still running
 * (`climbing`).  A level that is reached while the walk has stopped rebuilds
 * its node unchanged, exactly as insertFix and removeFix leave every ancestor
 * above the stopping point untouched.
 */
module Avl {
  import opened Trees
  import opened AvlHeights
  import opened AvlRotations
  import opened TreeContents
  import Bst
  import BstSearch

  /**
   * A subtree after an edit below it and the part of the fixup walk done so
   * far.  `climbing` tells whether the walk goes on at the parent;
   * `rebalances` counts the nodes at which a single or double rotation was
   * applied.
   */
  datatype Walk<V> = Walk(tree: Tree<V>, climbing: bool, rebalances: nat)

  /** Replace the child of t on side d. */
  function WithChild<V>(t: Tree<V>, d: Dir, c: Tree<V>): (r: Tree<V>)
    requires t.Node?
    ensures r.Node? && Child(r, d) == c && Child(r, Opposite(d)) == Child(t, Opposite(d))
    ensures r.key == t.key && r.val == t.val && r.height == t.height
  {
    if d == Left then Node(c, t.key, t.val, t.height, t.right) else Node(t.left, t.key, t.val, t.height, c)
  }

  // ===========================================================================
  // Insertion
  // ===========================================================================

  /**
   * The rotations insertFix applies at an unbalanced grandparent z: y is the
   * taller child of z, x the taller child of y (getGreaterChild, a tie going
   * right).  identifyImbalanceType compares pointers, so when y has no
   * children x is null, equals y's null child on y's own side, and the case
   * is classified zig-zig whichever side y hangs on; `xSide` records that.
   * The two guarded branches, where the node to promote is absent, are where
   * insertFix would dereference null: a null y, or a zig-zag with a null x,
   * which needs y to have a child node whose cached height is not positive.
   * The model leaves z as it is there.  InsertRebalanceRestores shows neither
   * is taken on a tree whose cached heights are consistent.
   */
  function InsertRebalance<V>(z: Tree<V>): (r: Tree<V>)
    requires z.Node?
    ensures r.Node?
    ensures SameContents(r, z)
  {
    var ySide := GetGreaterChild(z);
    var y := Child(z, ySide);
    if y.Leaf? then z
    else
      var xSide := if y.left.Leaf? && y.right.Leaf? then ySide else GetGreaterChild(y);
      var x := Child(y, xSide);
      var kind := IdentifyImbalanceType(ySide, xSide);
      if kind == LeftLeft then RotateRight(z)
      else if kind == RightRight then RotateLeft(z)
      else if x.Leaf? then z
      else if kind == LeftRight then
        var z1 := Node(RotateLeft(y), z.key, z.val, z.height, z.right);
        SameContentsUnder(RotateLeft(y), y, z.left, z.key, z.val, z.height, z.height, z.right);
        RotateRight(z1)
      else
        var z1 := Node(z.left, z.key, z.val, z.height, RotateRight(y));
        SameContentsUnder(RotateRight(y), y, z.left, z.key, z.val, z.height, z.height, z.right);
        RotateLeft(z1)
  }

  /**
   * One generation of insertFix, at the grandparent z whose child on the
   * insertion path has just been replaced: stop if z's height does not
   * change; otherwise update it and either keep climbing (z balanced) or
   * rotate and stop.
   */
  function InsertFixStep<V>(z: Tree<V>): (w: Walk<V>)
    requires z.Node?
    ensures w.tree.Node?
    ensures SameContents(w.tree, z)
    ensures w.rebalances <= 1 && (w.rebalances == 1 ==> !w.climbing)
  {
    if !ParentHeightChange(z) then Walk(z, false, 0)
    else
      var z1 := UpdateHeight(z);
      if CheckIfBalanced(z1) then Walk(z1, true, 0)
      else Walk(InsertRebalance(z1), false, 1)
  }

  /** Hand a walk from a child up to its parent z during insertion. */
  function ContinueInsert<V>(z: Tree<V>, below: Walk<V>): (w: Walk<V>)
    requires z.Node?
    requires below.rebalances <= 1 && (below.rebalances == 1 ==> !below.climbing)
    ensures w.tree.Node?
    ensures SameContents(w.tree, z)
    ensures w.rebalances <= 1 && (w.rebalances == 1 ==> !w.climbing)
  {
    if below.climbing then
      var s := InsertFixStep(z);
      Walk(s.tree, s.climbing, below.rebalances + s.rebalances)
    else Walk(z, false, below.rebalances)
  }

  /**
   * Attach a new node in prev's empty slot on side `side`.  A parent that
   * was a leaf (height 1) is bumped to height 2 and the fixup walk starts;
   * a parent of height 2 keeps its height and nothing more happens.
   */
  function AttachLeaf<V>(prev: Tree<V>, side: Dir, k: int, v: V): (w: Walk<V>)
    requires prev.Node? && Child(prev, side).Leaf?
    ensures w.tree.Node? && w.tree.key == prev.key && w.tree.val == prev.val
    ensures Child(w.tree, side) == NewNode(k, v) && Child(w.tree, Opposite(side)) == Child(prev, Opposite(side))
    ensures w.climbing <==> prev.height == 1
    ensures w.tree.height == (if prev.height == 1 then 2 else prev.height)
    ensures w.rebalances == 0
  {
    var attached := WithChild(prev, side, NewNode(k, v));
    if prev.height == 1 then Walk(attached.(height := 2), true, 0)
    else Walk(attached, false, 0)
  }

  /**
   * Insertion into a non-empty subtree: descend by key comparison (greater
   * first, as AVLTree::insert does); on an equal key overwrite the value and
   * stop; on reaching an empty slot attach the new leaf there.
   */
  function InsertWalk<V>(t: Tree<V>, k: int, v: V): (w: Walk<V>)
    requires t.Node?
    ensures w.tree.Node?
    ensures w.rebalances <= 1 && (w.rebalances == 1 ==> !w.climbing)
    decreases t
  {
    var Node(l, key, val, h, r) := t;
    if k > key then
      if r.Leaf? then AttachLeaf(t, Right, k, v)
      else
        var below := InsertWalk(r, k, v);
        ContinueInsert(Node(l, key, val, h, below.tree), below)
    else if k < key then
      if l.Leaf? then AttachLeaf(t, Left, k, v)
      else
        var below := InsertWalk(l, k, v);
        ContinueInsert(Node(below.tree, key, val, h, r), below)
    else Walk(Node(l, key, v, h, r), false, 0)
  }

  /** AVLTree::insert: upsert, then rebalance. */
  function Insert<V>(t: Tree<V>, k: int, v: V): (r: Tree<V>)
    ensures t.Leaf? ==> r == NewNode(k, v)
    ensures Avl(t) ==> Avl(r)
    ensures Ordered(t) ==> Ordered(r) && ToMap(r) == ToMap(t)[k := v] && Keys(r) == Keys(t) + {k}
    ensures Ordered(t) && k in Keys(t) ==> SameShape(r, t)
    ensures AvlShape(t) ==> H(r) == H(t) || H(r) == H(t) + 1
  {
    if t.Leaf? then NewNode(k, v)
    else
      InsertWalkContents(t, k, v);
      InsertWalkShape(t, k, v);
      if Ordered(t) && k in Keys(t) then InsertExistingKeyWalk(t, k, v); InsertWalk(t, k, v).tree
      else InsertWalk(t, k, v).tree
  }

  // ===========================================================================
  // Removal
  // ===========================================================================

  /**
   * The rotations removeFix applies at an unbalanced node n, followed by the
   * height updates the caller of the ForRemove rotations performs: n, c and,
   * for the double rotations, g, in that order.  c is the taller child of n
   * and g is chosen by getG.  getG sends a childless c to c's own side, so
   * comparing sides classifies every case as identifyImbalanceType's pointer
   * comparison does.  As for insertion, the guarded branches are where
   * removeFix would dereference null, and they are never taken on consistent
   * heights.
   */
  function RemoveRebalance<V>(n: Tree<V>): (r: Tree<V>)
    requires n.Node?
    ensures r.Node?
    ensures SameContents(r, n)
  {
    var cSide := GetGreaterChild(n);
    var c := Child(n, cSide);
    if c.Leaf? then n
    else
      var gSide := GetG(c, cSide);
      var g := Child(c, gSide);
      var kind := IdentifyImbalanceType(cSide, gSide);
      if kind == LeftLeft then
        var t := RotateRightForRemove(n);
        var n' := UpdateHeight(t.right);
        SameContentsUnder(n', t.right, t.left, t.key, t.val, t.height, t.height, t.left);
        UpdateHeight(Node(t.left, t.key, t.val, t.height, n'))
      else if kind == RightRight then
        var t := RotateLeftForRemove(n);
        var n' := UpdateHeight(t.left);
        SameContentsUnder(n', t.left, t.left, t.key, t.val, t.height, t.height, t.right);
        UpdateHeight(Node(n', t.key, t.val, t.height, t.right))
      else if g.Leaf? then n
      else if kind == LeftRight then
        var c1 := RotateLeftForRemove(c);
        SameContentsUnder(c1, c, n.left, n.key, n.val, n.height, n.height, n.right);
        UpdateAfterDouble(RotateRightForRemove(Node(c1, n.key, n.val, n.height, n.right)))
      else
        var c1 := RotateRightForRemove(c);
        SameContentsUnder(c1, c, n.left, n.key, n.val, n.height, n.height, n.right);
        UpdateAfterDouble(RotateLeftForRemove(Node(n.left, n.key, n.val, n.height, c1)))
  }

  /**
   * After a double rotation the grandchild g is on top with the other two
   * nodes as its children: update both children, then g.
   */
  function UpdateAfterDouble<V>(t: Tree<V>): (r: Tree<V>)
    requires t.Node?
    ensures r.Node? && r.key == t.key && r.left == UpdateHeight(t.left) && r.right == UpdateHeight(t.right)
    ensures (&& t.left.Node? && t.right.Node?
             && HeightsOk(t.left.left) && HeightsOk(t.left.right)
             && HeightsOk(t.right.left) && HeightsOk(t.right.right)) ==> HeightsOk(r)
    ensures SameContents(r, t)
  {
    var l' := UpdateHeight(t.left);
    var r' := UpdateHeight(t.right);
    SameContentsUnder(l', t.left, t.left, t.key, t.val, t.height, t.height, t.right);
    SameContentsUnder(r', t.right, l', t.key, t.val, t.height, t.height, t.right);
    UpdateHeight(Node(l', t.key, t.val, t.height, r'))
  }

  /**
   * One generation of removeFix at n: an unbalanced node is rotated and the
   * walk always goes on to n's old parent; a balanced node whose height would
   * not change stops the walk; otherwise its height is updated and the walk
   * goes on.
   */
  function RemoveFixStep<V>(n: Tree<V>): (w: Walk<V>)
    requires n.Node?
    ensures SameContents(w.tree, n)
    ensures w.rebalances == (if CheckIfBalanced(n) then 0 else 1)
    ensures !w.climbing <==> CheckIfBalanced(n) && !WillHeightChange(n)
  {
    if !CheckIfBalanced(n) then Walk(RemoveRebalance(n), true, 1)
    else if !WillHeightChange(n) then Walk(n, false, 0)
    else Walk(UpdateHeight(n), true, 0)
  }

  /** Hand a walk from a child up to its parent z during removal. */
  function ContinueRemove<V>(z: Tree<V>, below: Walk<V>): (w: Walk<V>)
    requires z.Node?
    ensures SameContents(w.tree, z)
    ensures !below.climbing ==> w == Walk(z, false, below.rebalances)
  {
    if below.climbing then
      var s := RemoveFixStep(z);
      Walk(s.tree, s.climbing, below.rebalances + s.rebalances)
    else Walk(z, false, below.rebalances)
  }

  /** The successor node detached from a subtree, and the walk of what is left. */
  datatype Detached<V> = Detached(key: int, val: V, rest: Walk<V>)

  /**
   * Splice out the leftmost node of t (the in-order successor of t's parent
   * when t is a right subtree).  That node has no left child, so its right
   * child takes its place; the fixup walk starts at its parent.
   */
  function RemoveLeftmostWalk<V>(t: Tree<V>): (d: Detached<V>)
    requires t.Node?
    ensures AvlShape(t) ==>
              && AvlShape(d.rest.tree)
              && (H(d.rest.tree) == H(t) || H(d.rest.tree) == H(t) - 1)
              && (!d.rest.climbing ==> H(d.rest.tree) == H(t))
    ensures Ordered(t) ==>
              && Ordered(d.rest.tree)
              && Keys(t) == Keys(d.rest.tree) + {d.key}
              && AllAbove(d.rest.tree, d.key)
              && ToMap(t) == ToMap(d.rest.tree)[d.key := d.val]
    decreases t
  {
    if t.left.Leaf? then
      LeftmostHere(t);
      Detached(t.key, t.val, Walk(t.right, true, 0))
    else
      var d := RemoveLeftmostWalk(t.left);
      LeftmostBelow(t, d);
      Detached(d.key, d.val, ContinueRemove(Node(d.rest.tree, t.key, t.val, t.height, t.right), d.rest))
  }

  /**
   * Removal from a subtree: search as internalFind does (node key greater
   * first); an absent key changes nothing and starts no fixup.  A node with
   * two children trades places with its successor: the successor's key and
   * value move into this position, which keeps its cached height (the AVL
   * nodeSwap swaps heights back), and the removed node is spliced out of the
   * successor's old position.  A node with at most one child is replaced by
   * that child.  The fixup walk starts at the parent of the spliced position.
   */
  function RemoveWalk<V>(t: Tree<V>, k: int): (w: Walk<V>)
    ensures AvlShape(t) ==>
              && AvlShape(w.tree)
              && (H(w.tree) == H(t) || H(w.tree) == H(t) - 1)
              && (!w.climbing ==> H(w.tree) == H(t))
    ensures Ordered(t) ==> Ordered(w.tree) && ToMap(w.tree) == ToMap(t) - {k} && Keys(w.tree) == Keys(t) - {k}
    ensures k !in Keys(t) ==> w == Walk(t, false, 0)
    decreases t
  {
    match t
    case Leaf => Walk(Leaf, false, 0)
    case Node(l, key, val, h, r) =>
      if key > k then
        var below := RemoveWalk(l, k);
        RemovedBelow(t, k, Left, below);
        ContinueRemove(Node(below.tree, key, val, h, r), below)
      else if key < k then
        var below := RemoveWalk(r, k);
        RemovedBelow(t, k, Right, below);
        ContinueRemove(Node(l, key, val, h, below.tree), below)
      else if l.Node? && r.Node? then
        var d := RemoveLeftmostWalk(r);
        RemovedBySuccessorWalk(t, d);
        ContinueRemove(Node(l, d.key, d.val, h, d.rest.tree), d.rest)
      else
        RemovedHere(t);
        if l.Node? then Walk(l, true, 0) else Walk(r, true, 0)
  }

  /** AVLTree::remove. */
  function Remove<V>(t: Tree<V>, k: int): (r: Tree<V>)
    ensures Avl(t) ==> Avl(r)
    ensures Ordered(t) ==> Ordered(r) && ToMap(r) == ToMap(t) - {k} && Keys(r) == Keys(t) - {k}
    ensures k !in Keys(t) ==> r == t
    ensures AvlShape(t) ==> H(r) == H(t) || H(r) == H(t) - 1
  {
    RemoveWalk(t, k).tree
  }

  // ===========================================================================
  // Shape proofs: balance and cached heights
  // ===========================================================================

  /** The root of t has one child exactly one taller than the other. */
  predicate Leaning<V>(t: Tree<V>) {
    t.Node? && (H(t.left) - H(t.right) == 1 || H(t.right) - H(t.left) == 1)
  }

  lemma {:induction false} AvlShapeHeights<V>(t: Tree<V>)
    requires AvlShape(t)
    ensures H(t) >= 0
    ensures t.Node? ==> H(t) >= 1 && AvlShape(t.left) && AvlShape(t.right)
  {
    if t.Node? {
      AvlShapeHeights(t.left);
      AvlShapeHeights(t.right);
    }
  }

  /**
   * Right rotation at z, where y = z.left has children a and b and c is
   * z.right: with a one taller than c and b as tall as c or one taller, the
   * result is a balanced subtree of height h(b) + 2.
   */
  lemma RotateRightShape<V>(z: Tree<V>)
    requires z.Node? && z.left.Node?
    requires AvlShape(z.left.left) && AvlShape(z.left.right) && AvlShape(z.right)
    requires H(z.left.left) == H(z.right) + 1
    requires H(z.right) <= H(z.left.right) <= H(z.right) + 1
    ensures AvlShape(RotateRight(z)) && H(RotateRight(z)) == H(z.left.right) + 2
  {
    AvlShapeHeights(z.right);
  }

  /** Mirror image of RotateRightShape. */
  lemma RotateLeftShape<V>(z: Tree<V>)
    requires z.Node? && z.right.Node?
    requires AvlShape(z.right.right) && AvlShape(z.right.left) && AvlShape(z.left)
    requires H(z.right.right) == H(z.left) + 1
    requires H(z.left) <= H(z.right.left) <= H(z.left) + 1
    ensures AvlShape(RotateLeft(z)) && H(RotateLeft(z)) == H(z.right.left) + 2
  {
    AvlShapeHeights(z.left);
  }

  /**
   * Left rotation at y = z.left, then right rotation at z: with y's outer
   * child as tall as z.right and y's inner child x one taller, x ends on top
   * of a balanced subtree two taller than z.right.
   */
  lemma RotateLeftRightShape<V>(z: Tree<V>)
    requires z.Node? && z.left.Node? && z.left.right.Node?
    requires AvlShape(z.left.left) && AvlShape(z.left.right) && AvlShape(z.right)
    requires H(z.left.left) == H(z.right) && H(z.left.right) == H(z.right) + 1
    ensures var r := RotateRight(Node(RotateLeft(z.left), z.key, z.val, z.height, z.right));
              AvlShape(r) && H(r) == H(z.right) + 2
  {
    var x := z.left.right;
    AvlShapeHeights(x);
    AvlShapeHeights(x.left);
    AvlShapeHeights(x.right);
  }

  /** Mirror image of RotateLeftRightShape. */
  lemma RotateRightLeftShape<V>(z: Tree<V>)
    requires z.Node? && z.right.Node? && z.right.left.Node?
    requires AvlShape(z.right.right) && AvlShape(z.right.left) && AvlShape(z.left)
    requires H(z.right.right) == H(z.left) && H(z.right.left) == H(z.left) + 1
    ensures var r := RotateLeft(Node(z.left, z.key, z.val, z.height, RotateRight(z.right)));
              AvlShape(r) && H(r) == H(z.left) + 2
  {
    var x := z.right.left;
    AvlShapeHeights(x);
    AvlShapeHeights(x.left);
    AvlShapeHeights(x.right);
  }

  /**
   * removeFix's double rotation (rewire twice, then update the three moved
   * nodes) builds the same tree as insertFix's double rotation.
   */
  lemma DoubleRotationsAgree<V>(z: Tree<V>)
    requires z.Node? && z.left.Node? && z.left.right.Node?
    ensures UpdateAfterDouble(RotateRightForRemove(Node(RotateLeftForRemove(z.left), z.key, z.val, z.height, z.right)))
         == RotateRight(Node(RotateLeft(z.left), z.key, z.val, z.height, z.right))
  {
  }

  lemma DoubleRotationsAgree'<V>(z: Tree<V>)
    requires z.Node? && z.right.Node? && z.right.left.Node?
    ensures UpdateAfterDouble(RotateLeftForRemove(Node(z.left, z.key, z.val, z.height, RotateRightForRemove(z.right))))
         == RotateLeft(Node(z.left, z.key, z.val, z.height, RotateRight(z.right)))
  {
  }

  /**
   * After an insertion grew y (z's child on side d) so that z is two levels
   * lopsided, insertFix's rotation(s) give a balanced subtree with
   * consistent heights and the height z had before the insertion.
   */
  lemma InsertRebalanceRestores<V>(z: Tree<V>, d: Dir)
    requires z.Node? && AvlShape(z.left) && AvlShape(z.right)
    requires H(Child(z, d)) == H(Child(z, Opposite(d))) + 2 && Leaning(Child(z, d))
    ensures AvlShape(InsertRebalance(z)) && H(InsertRebalance(z)) == H(Child(z, d))
  {
    var y := Child(z, d);
    AvlShapeHeights(Child(z, Opposite(d)));
    AvlShapeHeights(y);
    AvlShapeHeights(y.left);
    AvlShapeHeights(y.right);
    if d == Left {
      InsertRebalanceLeftHeavy(z);
    } else {
      InsertRebalanceRightHeavy(z);
    }
  }

  /** The left-left and left-right cases of the insertion repair. */
  lemma InsertRebalanceLeftHeavy<V>(z: Tree<V>)
    requires z.Node? && z.left.Node? && AvlShape(z.left.left) && AvlShape(z.left.right) && AvlShape(z.right)
    requires H(z.left) == H(z.right) + 2 && Leaning(z.left) && H(z.left) == 1 + Max(H(z.left.left), H(z.left.right))
    ensures AvlShape(InsertRebalance(z)) && H(InsertRebalance(z)) == H(z.left)
  {
    var y := z.left;
    AvlShapeHeights(y.left);
    AvlShapeHeights(y.right);
    assert GetGreaterChild(z) == Left;
    if H(y.left) > H(y.right) {
      RotateRightShape(z);
    } else {
      assert GetGreaterChild(y) == Right;
      RotateLeftRightShape(z);
    }
  }

  /** The right-right and right-left cases of the insertion repair. */
  lemma InsertRebalanceRightHeavy<V>(z: Tree<V>)
    requires z.Node? && z.right.Node? && AvlShape(z.right.left) && AvlShape(z.right.right) && AvlShape(z.left)
    requires H(z.right) == H(z.left) + 2 && Leaning(z.right) && H(z.right) == 1 + Max(H(z.right.left), H(z.right.right))
    ensures AvlShape(InsertRebalance(z)) && H(InsertRebalance(z)) == H(z.right)
  {
    var y := z.right;
    AvlShapeHeights(y.left);
    AvlShapeHeights(y.right);
    assert GetGreaterChild(z) == Right;
    if H(y.left) > H(y.right) {
      assert GetGreaterChild(y) == Left;
      RotateRightLeftShape(z);
    } else {
      RotateLeftShape(z);
    }
  }


  /**
   * One insertFix generation at z, whose child on side d has just grown by
   * one and leans: afterwards the subtree is balanced with consistent
   * heights; if the walk goes on, the subtree grew by one and leans; if it
   * stops, the subtree has z's old height.
   */
  lemma InsertFixStepOk<V>(z: Tree<V>, d: Dir)
    requires z.Node? && AvlShape(z.left) && AvlShape(z.right)
    requires Leaning(Child(z, d))
    requires -1 <= H(Child(z, d)) - 1 - H(Child(z, Opposite(d))) <= 1
    requires z.height == 1 + Max(H(Child(z, d)) - 1, H(Child(z, Opposite(d))))
    ensures var w := InsertFixStep(z);
              && AvlShape(w.tree)
              && (w.climbing ==> H(w.tree) == z.height + 1 && Leaning(w.tree))
              && (!w.climbing ==> H(w.tree) == z.height)
  {
    var c := Child(z, d);
    var o := Child(z, Opposite(d));
    AvlShapeHeights(c);
    AvlShapeHeights(o);
    if ParentHeightChange(z) {
      var z1 := UpdateHeight(z);
      if !CheckIfBalanced(z1) {
        assert Child(z1, d) == c && Child(z1, Opposite(d)) == o;
        InsertRebalanceRestores(z1, d);
      }
    }
  }

  /** Handing an insertion walk up one level keeps the walk's shape facts. */
  lemma ContinueInsertOk<V>(t: Tree<V>, d: Dir, below: Walk<V>)
    requires t.Node? && AvlShape(t) && Child(t, d).Node?
    requires below.rebalances <= 1 && (below.rebalances == 1 ==> !below.climbing)
    requires AvlShape(below.tree)
    requires below.climbing ==> H(below.tree) == H(Child(t, d)) + 1 && Leaning(below.tree)
    requires !below.climbing ==> H(below.tree) == H(Child(t, d))
    ensures var w := ContinueInsert(WithChild(t, d, below.tree), below);
              && AvlShape(w.tree)
              && (w.climbing ==> H(w.tree) == H(t) + 1 && Leaning(w.tree))
              && (!w.climbing ==> H(w.tree) == H(t))
  {
    var z := WithChild(t, d, below.tree);
    if below.climbing {
      InsertFixStepOk(z, d);
    }
  }

  /**
   * The insertion walk keeps the AVL shape; it is still climbing exactly when
   * the subtree grew by one level.
   */
  lemma {:induction false} InsertWalkShape<V>(t: Tree<V>, k: int, v: V)
    requires t.Node?
    ensures var w := InsertWalk(t, k, v);
              AvlShape(t) ==>
                && AvlShape(w.tree)
                && (w.climbing ==> H(w.tree) == H(t) + 1 && Leaning(w.tree))
                && (!w.climbing ==> H(w.tree) == H(t))
  {
    if AvlShape(t) {
      var Node(l, key, val, h, r) := t;
      AvlShapeHeights(l);
      AvlShapeHeights(r);
      if k > key {
        if r.Node? {
          var below := InsertWalk(r, k, v);
          InsertWalkShape(r, k, v);
          ContinueInsertOk(t, Right, below);
        }
      } else if k < key {
        if l.Node? {
          var below := InsertWalk(l, k, v);
          InsertWalkShape(l, k, v);
          ContinueInsertOk(t, Left, below);
        }
      }
    }
  }

  /**
   * removeFix's rotations at a node n whose child on side d is two taller
   * than the other: the result is balanced with consistent heights and is
   * as tall as that child or one taller.
   */
  lemma RemoveRebalanceRestores<V>(n: Tree<V>, d: Dir)
    requires n.Node? && AvlShape(n.left) && AvlShape(n.right)
    requires H(Child(n, d)) == H(Child(n, Opposite(d))) + 2
    ensures var r := RemoveRebalance(n);
              AvlShape(r) && (H(r) == H(Child(n, d)) || H(r) == H(Child(n, d)) + 1)
  {
    var c := Child(n, d);
    AvlShapeHeights(Child(n, Opposite(d)));
    AvlShapeHeights(c);
    AvlShapeHeights(c.left);
    AvlShapeHeights(c.right);
    if d == Left {
      RemoveRebalanceLeftHeavy(n);
    } else {
      RemoveRebalanceRightHeavy(n);
    }
  }

  /** The left-left and left-right cases of the removal repair; a tie counts as left-left. */
  lemma RemoveRebalanceLeftHeavy<V>(n: Tree<V>)
    requires n.Node? && n.left.Node? && AvlShape(n.left.left) && AvlShape(n.left.right) && AvlShape(n.right)
    requires H(n.left) == H(n.right) + 2 && H(n.left) == 1 + Max(H(n.left.left), H(n.left.right))
    requires -1 <= H(n.left.left) - H(n.left.right) <= 1
    ensures var r := RemoveRebalance(n);
              AvlShape(r) && (H(r) == H(n.left) || H(r) == H(n.left) + 1)
  {
    var c := n.left;
    AvlShapeHeights(c.left);
    AvlShapeHeights(c.right);
    assert GetGreaterChild(n) == Left;
    if H(c.right) > H(c.left) {
      assert GetG(c, Left) == Right;
      RotateLeftRightShape(n);
      DoubleRotationsAgree(n);
    } else {
      assert GetG(c, Left) == Left;
      assert RemoveRebalance(n) == RotateRight(n);
      RotateRightShape(n);
    }
  }

  /** The right-right and right-left cases of the removal repair; a tie counts as right-right. */
  lemma RemoveRebalanceRightHeavy<V>(n: Tree<V>)
    requires n.Node? && n.right.Node? && AvlShape(n.right.left) && AvlShape(n.right.right) && AvlShape(n.left)
    requires H(n.right) == H(n.left) + 2 && H(n.right) == 1 + Max(H(n.right.left), H(n.right.right))
    requires -1 <= H(n.right.left) - H(n.right.right) <= 1
    ensures var r := RemoveRebalance(n);
              AvlShape(r) && (H(r) == H(n.right) || H(r) == H(n.right) + 1)
  {
    var c := n.right;
    AvlShapeHeights(c.left);
    AvlShapeHeights(c.right);
    assert GetGreaterChild(n) == Right;
    if H(c.left) > H(c.right) {
      assert GetG(c, Right) == Left;
      RotateRightLeftShape(n);
      DoubleRotationsAgree'(n);
    } else {
      assert GetG(c, Right) == Right;
      assert RemoveRebalance(n) == RotateLeft(n);
      RotateLeftShape(n);
    }
  }


  /**
   * One removeFix generation at n, one of whose children may have shrunk by
   * one.  The precondition on n's cached height says it was consistent
   * before the shrink.
   */
  lemma RemoveFixStepOk<V>(n: Tree<V>)
    requires n.Node? && AvlShape(n.left) && AvlShape(n.right)
    requires -2 <= H(n.left) - H(n.right) <= 2
    requires || n.height == 1 + Max(H(n.left), H(n.right))
             || (n.height == 2 + Max(H(n.left), H(n.right)) && H(n.left) == H(n.right))
    ensures var w := RemoveFixStep(n);
              && AvlShape(w.tree)
              && (H(w.tree) == n.height || H(w.tree) == n.height - 1)
              && (!w.climbing ==> H(w.tree) == n.height)
  {
    AvlShapeHeights(n.left);
    AvlShapeHeights(n.right);
    if !CheckIfBalanced(n) {
      var d := if H(n.left) > H(n.right) then Left else Right;
      RemoveRebalanceRestores(n, d);
    }
  }

  /** Handing a removal walk up one level keeps the walk's shape facts. */
  lemma ContinueRemoveOk<V>(t: Tree<V>, z: Tree<V>, d: Dir, below: Walk<V>)
    requires t.Node? && AvlShape(t)
    requires z.Node? && Child(z, d) == below.tree && Child(z, Opposite(d)) == Child(t, Opposite(d))
    requires z.height == t.height
    requires AvlShape(below.tree)
    requires H(below.tree) == H(Child(t, d)) || H(below.tree) == H(Child(t, d)) - 1
    requires !below.climbing ==> H(below.tree) == H(Child(t, d))
    ensures var w := ContinueRemove(z, below);
              && AvlShape(w.tree)
              && (H(w.tree) == H(t) || H(w.tree) == H(t) - 1)
              && (!w.climbing ==> H(w.tree) == H(t))
  {
    AvlShapeHeights(t);
    if below.climbing {
      RemoveFixStepOk(z);
    }
  }

  /**
   * What a removal walk promises about the subtree t it ran on: an AVL-shaped
   * t stays AVL-shaped and loses at most one level, and none once the walk
   * has stopped.
   */
  ghost predicate RemovalShapeOk<V>(t: Tree<V>, w: Walk<V>) {
    AvlShape(t) ==>
      && AvlShape(w.tree)
      && (H(w.tree) == H(t) || H(w.tree) == H(t) - 1)
      && (!w.climbing ==> H(w.tree) == H(t))
  }

  /**
   * What splicing the leftmost node out of an ordered t promises: the
   * detached pair is t's minimum and the rest holds exactly the other entries.
   */
  ghost predicate DetachedOk<V>(t: Tree<V>, d: Detached<V>) {
    Ordered(t) ==>
      && Ordered(d.rest.tree)
      && Keys(t) == Keys(d.rest.tree) + {d.key}
      && AllAbove(d.rest.tree, d.key)
      && ToMap(t) == ToMap(d.rest.tree)[d.key := d.val]
  }

  /** What removing k from an ordered t promises: exactly k's entry is gone. */
  ghost predicate RemovedOk<V>(t: Tree<V>, k: int, w: Walk<V>) {
    Ordered(t) ==> Ordered(w.tree) && ToMap(w.tree) == ToMap(t) - {k} && Keys(w.tree) == Keys(t) - {k}
  }

  /** The leftmost node is t itself: its right child takes its place. */
  lemma LeftmostHere<V>(t: Tree<V>)
    requires t.Node? && t.left.Leaf?
    ensures RemovalShapeOk(t, Walk(t.right, true, 0))
    ensures DetachedOk(t, Detached(t.key, t.val, Walk(t.right, true, 0)))
  {
    if AvlShape(t) {
      AvlShapeHeights(t);
      AvlShapeHeights(t.right);
    }
    if Ordered(t) {
      KeysAreMapKeys(t.right);
      MapUpdateUnderLeft(map[], ToMap(t.right), t.key, t.val);
      assert map[][t.key := t.val] == ToMap(t.left) + map[t.key := t.val];
      assert map[] + ToMap(t.right) == ToMap(t.right);
    }
  }

  /** The leftmost node was spliced out of t's left subtree: hand the walk up to t. */
  lemma LeftmostBelow<V>(t: Tree<V>, d: Detached<V>)
    requires t.Node? && t.left.Node?
    requires RemovalShapeOk(t.left, d.rest) && DetachedOk(t.left, d)
    ensures var w := ContinueRemove(Node(d.rest.tree, t.key, t.val, t.height, t.right), d.rest);
              RemovalShapeOk(t, w) && DetachedOk(t, Detached(d.key, d.val, w))
  {
    var z := Node(d.rest.tree, t.key, t.val, t.height, t.right);
    var w := ContinueRemove(z, d.rest);
    if AvlShape(t) {
      AvlShapeHeights(t);
      AvlShapeHeights(t.right);
      ContinueRemoveOk(t, z, Left, d.rest);
    }
    if Ordered(t) {
      DetachedBelow(t, w.tree, d.key, d.val, d.rest.tree);
    }
  }

  /** k was removed from t's child on side d: hand the walk up to t. */
  lemma RemovedBelow<V>(t: Tree<V>, k: int, d: Dir, below: Walk<V>)
    requires t.Node? && (if d == Left then k < t.key else k > t.key)
    requires RemovalShapeOk(Child(t, d), below) && RemovedOk(Child(t, d), k, below)
    ensures var w := ContinueRemove(WithChild(t, d, below.tree), below);
              RemovalShapeOk(t, w) && RemovedOk(t, k, w)
  {
    var z := WithChild(t, d, below.tree);
    var w := ContinueRemove(z, below);
    if AvlShape(t) {
      AvlShapeHeights(t);
      AvlShapeHeights(t.left);
      AvlShapeHeights(t.right);
      ContinueRemoveOk(t, z, d, below);
    }
    if Ordered(t) {
      if d == Left {
        RemovedLeft(t, w.tree, k, below.tree);
      } else {
        RemovedRight(t, w.tree, k, below.tree);
      }
    }
  }

  /** t's own key is removed and its successor, detached from t.right, takes its place. */
  lemma RemovedBySuccessorWalk<V>(t: Tree<V>, d: Detached<V>)
    requires t.Node? && t.left.Node? && t.right.Node?
    requires RemovalShapeOk(t.right, d.rest) && DetachedOk(t.right, d)
    ensures var w := ContinueRemove(Node(t.left, d.key, d.val, t.height, d.rest.tree), d.rest);
              RemovalShapeOk(t, w) && RemovedOk(t, t.key, w)
  {
    var z := Node(t.left, d.key, d.val, t.height, d.rest.tree);
    var w := ContinueRemove(z, d.rest);
    if AvlShape(t) {
      AvlShapeHeights(t);
      AvlShapeHeights(t.left);
      AvlShapeHeights(t.right);
      ContinueRemoveOk(t, z, Right, d.rest);
    }
    if Ordered(t) {
      RemovedBySuccessor(t, w.tree, d.key, d.val, d.rest.tree);
    }
  }

  /** t's own key is removed and t has at most one child, which takes its place. */
  lemma RemovedHere<V>(t: Tree<V>)
    requires t.Node? && (t.left.Leaf? || t.right.Leaf?)
    ensures var w := Walk(if t.left.Node? then t.left else t.right, true, 0);
              RemovalShapeOk(t, w) && RemovedOk(t, t.key, w)
  {
    if AvlShape(t) {
      AvlShapeHeights(t);
      AvlShapeHeights(t.left);
      AvlShapeHeights(t.right);
    }
    if Ordered(t) {
      KeysAreMapKeys(t.left);
      KeysAreMapKeys(t.right);
      if t.left.Node? {
        assert ToMap(t) - {t.key} == ToMap(t.left);
      } else {
        assert ToMap(t) - {t.key} == ToMap(t.right);
      }
    }
  }

  // ===========================================================================
  // Content proofs: ordering and the abstract map
  // ===========================================================================

  lemma {:induction false} InsertWalkContents<V>(t: Tree<V>, k: int, v: V)
    requires t.Node?
    ensures var r := InsertWalk(t, k, v).tree;
              && Keys(r) == Keys(t) + {k}
              && (Ordered(t) ==> Ordered(r) && ToMap(r) == ToMap(t)[k := v])
  {
    var Node(l, key, val, h, r) := t;
    if k > key {
      var r' := if r.Leaf? then NewNode(k, v) else InsertWalk(r, k, v).tree;
      if r.Node? {
        InsertWalkContents(r, k, v);
      } else {
        assert ToMap(r') == ToMap(r)[k := v];
      }
      assert SameContents(InsertWalk(t, k, v).tree, Node(l, key, val, h, r'));
      InsertedRight(t, InsertWalk(t, k, v).tree, k, v, r');
    } else if k < key {
      var l' := if l.Leaf? then NewNode(k, v) else InsertWalk(l, k, v).tree;
      if l.Node? {
        InsertWalkContents(l, k, v);
      } else {
        assert ToMap(l') == ToMap(l)[k := v];
      }
      assert SameContents(InsertWalk(t, k, v).tree, Node(l', key, val, h, r));
      InsertedLeft(t, InsertWalk(t, k, v).tree, k, v, l');
    } else if Ordered(t) {
      KeysAreMapKeys(r);
      MapUpdateUnderRight(ToMap(l), map[key := val], k, v);
      assert map[key := val][k := v] == map[key := v];
      MapUpdateUnderLeft(ToMap(l) + map[key := val], ToMap(r), k, v);
    }
  }

  /** Inserting a key that is present changes only its value: no node, no height. */
  lemma {:induction false} InsertExistingKeyWalk<V>(t: Tree<V>, k: int, v: V)
    requires t.Node? && Ordered(t) && k in Keys(t)
    ensures var w := InsertWalk(t, k, v);
              SameShape(w.tree, t) && !w.climbing && w.rebalances == 0
  {
    var Node(l, key, val, h, r) := t;
    if k > key {
      InsertExistingKeyWalk(r, k, v);
      SameShapeRefl(l);
    } else if k < key {
      InsertExistingKeyWalk(l, k, v);
      SameShapeRefl(r);
    } else {
      SameShapeRefl(l);
      SameShapeRefl(r);
    }
  }


  // ===========================================================================
  // Walk bookkeeping
  // ===========================================================================

  /** Removal never stops right after a rotation: the walk goes on to the old parent. */
  lemma RemoveFixContinuesAfterRotation<V>(n: Tree<V>)
    requires n.Node? && !CheckIfBalanced(n)
    ensures RemoveFixStep(n).climbing && RemoveFixStep(n).rebalances == 1
  {
  }

  /** A fixup step at a balanced node with a consistent height changes nothing and stops the walk. */
  lemma RemoveFixStopIsIdentity<V>(n: Tree<V>)
    requires n.Node? && AvlShape(n)
    ensures RemoveFixStep(n) == Walk(n, false, 0)
  {
  }

  // ===========================================================================
  // nodeSwap
  // ===========================================================================

  /**
   * AVLTree::nodeSwap: the plain nodeSwap moves the two node objects, heights
   * included; then the two nodes trade heights, so each position keeps the
   * height it had.  Unlike the plain version it reads both nodes afterwards,
   * so both must exist.
   */
  function NodeSwap<V>(t: Tree<V>, p1: Bst.Path, p2: Bst.Path): (r: Tree<V>)
    requires Bst.IsNodeAt(t, p1) && Bst.IsNodeAt(t, p2)
    ensures var a := Bst.PayloadAt(t, p1);
            var b := Bst.PayloadAt(t, p2);
            r == Bst.SetPayload(Bst.SetPayload(t, p1, b.(height := a.height)), p2, a.(height := b.height))
    ensures SameHeights(r, t)
    ensures HeightsOk(r) <==> HeightsOk(t)
    ensures Balanced(r) <==> Balanced(t)
  {
    var s := Bst.NodeSwap(t, p1, p2);
    Bst.SameSkeletonNodes(s, t, p1);
    Bst.SameSkeletonNodes(s, t, p2);
    Bst.NodeSwapMoves(t, p1, p2, p1);
    Bst.NodeSwapMoves(t, p1, p2, p2);
    var n2 := Bst.PayloadAt(s, p1);
    var n1 := Bst.PayloadAt(s, p2);
    var s1 := Bst.SetPayload(s, p2, n1.(height := n2.height));
    Bst.SameSkeletonNodes(s1, s, p1);
    var r := Bst.SetPayload(s1, p1, n2.(height := n1.height));
    SwapHeightsBack(t, p1, p2, r);
    r
  }


  /** Same node positions with the same cached heights; keys and values may differ. */
  predicate SameHeights<V>(a: Tree<V>, b: Tree<V>) {
    match a
    case Leaf => b.Leaf?
    case Node(al, _, _, ah, ar) => b.Node? && ah == b.height && SameHeights(al, b.left) && SameHeights(ar, b.right)
  }

  lemma {:induction false} SameHeightsKeepShape<V>(a: Tree<V>, b: Tree<V>)
    requires SameHeights(a, b)
    ensures HeightsOk(a) <==> HeightsOk(b)
    ensures Balanced(a) <==> Balanced(b)
  {
    if a.Node? {
      SameHeightsKeepShape(a.left, b.left);
      SameHeightsKeepShape(a.right, b.right);
    }
  }

  lemma {:induction false} SameHeightsTrans<V>(a: Tree<V>, b: Tree<V>, c: Tree<V>)
    requires SameHeights(a, b) && SameHeights(b, c)
    ensures SameHeights(a, c)
  {
    if a.Node? {
      SameHeightsTrans(a.left, b.left, c.left);
      SameHeightsTrans(a.right, b.right, c.right);
    }
  }

  lemma {:induction false} SameHeightsRefl<V>(t: Tree<V>)
    ensures SameHeights(t, t)
  {
    if t.Node? {
      SameHeightsRefl(t.left);
      SameHeightsRefl(t.right);
    }
  }

  /** Writing a payload that carries the height already there keeps every height in place. */
  lemma {:induction false} SetPayloadKeepsHeights<V>(t: Tree<V>, p: Bst.Path, x: Bst.Payload<V>)
    requires Bst.IsNodeAt(t, p) && x.height == Bst.PayloadAt(t, p).height
    ensures SameHeights(Bst.SetPayload(t, p, x), t)
    decreases |p|
  {
    SameHeightsRefl(t.left);
    SameHeightsRefl(t.right);
    if |p| > 0 {
      SetPayloadKeepsHeights(Child(t, p[0]), p[1..], x);
    }
  }

  /**
   * Moving both payloads and then trading the heights back is the same as
   * writing each position's partner's key and value with the position's own
   * height; every cached height stays where it was.
   */
  lemma SwapHeightsBack<V>(t: Tree<V>, p1: Bst.Path, p2: Bst.Path, r: Tree<V>)
    requires Bst.IsNodeAt(t, p1) && Bst.IsNodeAt(t, p2)
    requires var a := Bst.PayloadAt(t, p1);
             var b := Bst.PayloadAt(t, p2);
             r == Bst.SetPayload(Bst.SetPayload(Bst.NodeSwap(t, p1, p2), p2, a.(height := b.height)), p1, b.(height := a.height))
    ensures var a := Bst.PayloadAt(t, p1);
            var b := Bst.PayloadAt(t, p2);
            r == Bst.SetPayload(Bst.SetPayload(t, p1, b.(height := a.height)), p2, a.(height := b.height))
    ensures SameHeights(r, t)
    ensures HeightsOk(r) <==> HeightsOk(t)
    ensures Balanced(r) <==> Balanced(t)
  {
    var a := Bst.PayloadAt(t, p1);
    var b := Bst.PayloadAt(t, p2);
    var a' := a.(height := b.height);
    var b' := b.(height := a.height);
    if p1 == p2 {
      Bst.SetPayloadTwice(t, p1, a, a);
      Bst.SetPayloadOwn(t, p1);
      assert r == Bst.SetPayload(Bst.SetPayload(t, p1, a), p1, a);
    } else {
      var s := Bst.NodeSwap(t, p1, p2);
      Bst.NodeSwapMoves(t, p1, p2, p1);
      Bst.NodeSwapMoves(t, p1, p2, p2);
      assert r == Bst.SetPayload(Bst.SetPayload(s, p2, a'), p1, b');
      calc {
        r;
        Bst.SetPayload(Bst.SetPayload(Bst.SetPayload(Bst.SetPayload(t, p1, b), p2, a), p2, a'), p1, b');
        { Bst.SetPayloadTwice(Bst.SetPayload(t, p1, b), p2, a, a'); }
        Bst.SetPayload(Bst.SetPayload(Bst.SetPayload(t, p1, b), p2, a'), p1, b');
        { Bst.SetPayloadCommutes(Bst.SetPayload(t, p1, b), p2, a', p1, b'); }
        Bst.SetPayload(Bst.SetPayload(Bst.SetPayload(t, p1, b), p1, b'), p2, a');
        { Bst.SetPayloadTwice(t, p1, b, b'); }
        Bst.SetPayload(Bst.SetPayload(t, p1, b'), p2, a');
      }
    }
    var t1 := Bst.SetPayload(t, p1, b');
    SetPayloadKeepsHeights(t, p1, b');
    Bst.SameSkeletonNodes(t1, t, p2);
    Bst.PayloadAfterSet(t, p1, b', p2);
    if p1 == p2 {
      SameHeightsRefl(t1);
      Bst.SetPayloadTwice(t, p1, b', a');
      SetPayloadKeepsHeights(t, p1, a');
      assert r == Bst.SetPayload(t, p1, a');
    } else {
      SetPayloadKeepsHeights(t1, p2, a');
      SameHeightsTrans(r, t1, t);
    }
    SameHeightsKeepShape(r, t);
  }

  // ===========================================================================
  // Height bound
  // ===========================================================================

  function Pow2(n: nat): (p: nat)
    ensures p >= 1
  {
    if n == 0 then 1 else 2 * Pow2(n - 1)
  }

  /**
   * The point of the balance invariant: an AVL tree of height h holds at
   * least 2^(h/2) - 1 items, so its height is logarithmic in its size.
   */
  lemma {:induction false} AvlHeightLogarithmic<V>(t: Tree<V>)
    requires AvlShape(t)
    ensures H(t) >= 0 && Pow2(H(t) / 2) <= |Items(t)| + 1
  {
    AvlShapeHeights(t);
    if t.Node? {
      var Node(l, _, _, h, r) := t;
      AvlHeightLogarithmic(l);
      AvlHeightLogarithmic(r);
      AvlShapeHeights(l);
      AvlShapeHeights(r);
      var tall := if H(l) >= H(r) then l else r;
      var short := if H(l) >= H(r) then r else l;
      assert H(tall) == h - 1 && H(short) >= h - 2;
      if h >= 2 {
        var m := h / 2;
        assert Pow2(m) == 2 * Pow2(m - 1);
        assert (h - 1) / 2 >= m - 1 && H(short) / 2 >= m - 1;
        Pow2Monotone(m - 1, (h - 1) / 2);
        Pow2Monotone(m - 1, H(short) / 2);
      }
    }
  }

  lemma {:induction false} Pow2Monotone(a: nat, b: nat)
    requires a <= b
    ensures Pow2(a) <= Pow2(b)
    decreases b
  {
    if a < b {
      Pow2Monotone(a, b - 1);
    }
  }

  // ===========================================================================
  // Sequences of operations
  // ===========================================================================

  /** The map a sequence of upserts produces: later pairs win. */
  function Upserts<V>(m: map<int, V>, kvs: seq<(int, V)>): map<int, V>
    decreases |kvs|
  {
    if |kvs| == 0 then m else Upserts(m[kvs[0].0 := kvs[0].1], kvs[1..])
  }

  /** Upserting a pair that was just upserted changes nothing, not even a value. */
  lemma InsertIdempotent<V>(t: Tree<V>, k: int, v: V)
    requires Ordered(t)
    ensures Insert(Insert(t, k, v), k, v) == Insert(t, k, v)
  {
    var r := Insert(t, k, v);
    assert ToMap(r)[k := v] == ToMap(r);
    SameShapeSameMap(Insert(r, k, v), r);
  }

  /** Insert the pairs of kvs one after another, first to last. */
  function InsertAll<V>(t: Tree<V>, kvs: seq<(int, V)>): (r: Tree<V>)
    ensures Avl(t) ==> Avl(r)
    ensures Ordered(t) ==> Ordered(r) && ToMap(r) == Upserts(ToMap(t), kvs)
    decreases |kvs|
  {
    if |kvs| == 0 then t else InsertAll(Insert(t, kvs[0].0, kvs[0].1), kvs[1..])
  }

  /** Remove the keys of ks one after another. */
  function RemoveAll<V>(t: Tree<V>, ks: seq<int>): (r: Tree<V>)
    ensures Avl(t) ==> Avl(r)
    ensures Ordered(t) ==> Ordered(r) && Keys(r) == Keys(t) - (set k | k in ks)
    decreases |ks|
  {
    if |ks| == 0 then t
    else
      assert (set k | k in ks) == {ks[0]} + (set k | k in ks[1..]);
      RemoveAll(Remove(t, ks[0]), ks[1..])
  }

  /**
   * Inserting a batch of pairs and then removing every key of the batch,
   * in any order, leaves the empty tree: balanced, with begin() == end().
   */
  lemma {:induction false} InsertThenRemoveAllEmpties<V>(kvs: seq<(int, V)>, ks: seq<int>)
    requires forall i :: 0 <= i < |kvs| ==> kvs[i].0 in ks
    ensures var r := RemoveAll(InsertAll(Leaf, kvs), ks);
              r == Leaf && Bst.IsBalanced(r) && BstSearch.Begin(r) == BstSearch.End()
  {
    var t := InsertAll(Leaf, kvs);
    UpsertsKeys(map[], kvs);
    KeysAreMapKeys(t);
    var r := RemoveAll(t, ks);
    assert Keys(r) == {} by {
      forall x | x in Keys(t)
        ensures x in ks
      {
        assert x in Upserts(map[], kvs).Keys;
      }
    }
  }

  lemma {:induction false} UpsertsKeys<V>(m: map<int, V>, kvs: seq<(int, V)>)
    ensures forall x :: x in Upserts(m, kvs) ==> x in m || exists i :: 0 <= i < |kvs| && kvs[i].0 == x
    decreases |kvs|
  {
    if |kvs| > 0 {
      UpsertsKeys(m[kvs[0].0 := kvs[0].1], kvs[1..]);
      forall x | x in Upserts(m, kvs)
        ensures x in m || exists i :: 0 <= i < |kvs| && kvs[i].0 == x
      {
        if x !in m && x != kvs[0].0 {
          assert x in Upserts(m[kvs[0].0 := kvs[0].1], kvs[1..]);
          assert x !in m[kvs[0].0 := kvs[0].1];
          var i :| 0 <= i < |kvs[1..]| && kvs[1..][i].0 == x;
          assert kvs[i + 1].0 == x;
        }
      }
    }
  }

  // ===========================================================================
  // Concrete scenarios
  // ===========================================================================

  /** Inserting 3, 2, 1 triggers one right rotation: 2 ends on top, all heights consistent. */
  lemma DescendingInsertsRotateRight()
    ensures Insert(Insert(Insert(Leaf, 3, 'c'), 2, 'b'), 1, 'a')
         == Node(NewNode(1, 'a'), 2, 'b', 2, NewNode(3, 'c'))
  {
    assert InsertWalk(NewNode(3, 'c'), 2, 'b') == AttachLeaf(NewNode(3, 'c'), Left, 2, 'b');
    var t2 := Insert(Insert(Leaf, 3, 'c'), 2, 'b');
    assert t2 == Node(NewNode(2, 'b'), 3, 'c', 2, Leaf);
    var z := Node(Node(NewNode(1, 'a'), 2, 'b', 2, Leaf), 3, 'c', 2, Leaf);
    assert InsertWalk(t2, 1, 'a') == ContinueInsert(z, AttachLeaf(NewNode(2, 'b'), Left, 1, 'a'));
    RightRotationAtThree(z);
  }

  /** The fixup step of the scenario above: z is left-left heavy and rotates right. */
  lemma RightRotationAtThree(z: Tree<char>)
    requires z == Node(Node(NewNode(1, 'a'), 2, 'b', 2, Leaf), 3, 'c', 2, Leaf)
    ensures InsertFixStep(z).tree == Node(NewNode(1, 'a'), 2, 'b', 2, NewNode(3, 'c'))
  {
    assert ParentHeightChange(z);
    var z1 := UpdateHeight(z);
    assert z1 == z.(height := 3);
    assert !CheckIfBalanced(z1);
    assert InsertRebalance(z1) == RotateRight(z1);
  }

  /** Inserting 1, 2, 3 triggers one left rotation. */
  lemma AscendingInsertsRotateLeft()
    ensures Insert(Insert(Insert(Leaf, 1, 'a'), 2, 'b'), 3, 'c')
         == Node(NewNode(1, 'a'), 2, 'b', 2, NewNode(3, 'c'))
  {
    assert InsertWalk(NewNode(1, 'a'), 2, 'b') == AttachLeaf(NewNode(1, 'a'), Right, 2, 'b');
    var t2 := Insert(Insert(Leaf, 1, 'a'), 2, 'b');
    assert t2 == Node(Leaf, 1, 'a', 2, NewNode(2, 'b'));
    var z := Node(Leaf, 1, 'a', 2, Node(Leaf, 2, 'b', 2, NewNode(3, 'c')));
    assert InsertWalk(t2, 3, 'c') == ContinueInsert(z, AttachLeaf(NewNode(2, 'b'), Right, 3, 'c'));
    LeftRotationAtOne(z);
  }

  /** The fixup step of the scenario above: z is right-right heavy and rotates left. */
  lemma LeftRotationAtOne(z: Tree<char>)
    requires z == Node(Leaf, 1, 'a', 2, Node(Leaf, 2, 'b', 2, NewNode(3, 'c')))
    ensures InsertFixStep(z).tree == Node(NewNode(1, 'a'), 2, 'b', 2, NewNode(3, 'c'))
  {
    assert ParentHeightChange(z);
    var z1 := UpdateHeight(z);
    assert z1 == z.(height := 3);
    assert !CheckIfBalanced(z1);
    assert GetGreaterChild(z1) == Right && GetGreaterChild(z1.right) == Right;
    assert IdentifyImbalanceType(Right, Right) == RightRight;
    assert InsertRebalance(z1) == RotateLeft(z1);
  }

  /** Inserting 3, 1, 2 needs the double rotation: left at 1, then right at 3. */
  lemma ZigZagInsertsRotateTwice()
    ensures Insert(Insert(Insert(Leaf, 3, 'c'), 1, 'a'), 2, 'b')
         == Node(NewNode(1, 'a'), 2, 'b', 2, NewNode(3, 'c'))
  {
    assert InsertWalk(NewNode(3, 'c'), 1, 'a') == AttachLeaf(NewNode(3, 'c'), Left, 1, 'a');
    var t2 := Insert(Insert(Leaf, 3, 'c'), 1, 'a');
    assert t2 == Node(NewNode(1, 'a'), 3, 'c', 2, Leaf);
    var z := Node(Node(Leaf, 1, 'a', 2, NewNode(2, 'b')), 3, 'c', 2, Leaf);
    assert InsertWalk(t2, 2, 'b') == ContinueInsert(z, AttachLeaf(NewNode(1, 'a'), Right, 2, 'b'));
    DoubleRotationAtThree(z);
  }

  /** The fixup step of the scenario above: z is left-right heavy and rotates twice. */
  lemma DoubleRotationAtThree(z: Tree<char>)
    requires z == Node(Node(Leaf, 1, 'a', 2, NewNode(2, 'b')), 3, 'c', 2, Leaf)
    ensures InsertFixStep(z).tree == Node(NewNode(1, 'a'), 2, 'b', 2, NewNode(3, 'c'))
  {
    assert ParentHeightChange(z);
    var z1 := UpdateHeight(z);
    assert z1 == z.(height := 3);
    assert !CheckIfBalanced(z1);
    LeftRightRepair(z1);
  }

  /** The repair itself: left rotation at 1, then right rotation at 3. */
  lemma LeftRightRepair(z: Tree<char>)
    requires z == Node(Node(Leaf, 1, 'a', 2, NewNode(2, 'b')), 3, 'c', 3, Leaf)
    ensures InsertRebalance(z) == Node(NewNode(1, 'a'), 2, 'b', 2, NewNode(3, 'c'))
  {
    InsertRebalanceLeftRight(z);
    LeftRightRotations(z.left);
  }

  /** Which repair insertFix picks when the left child is taller and leans right. */
  lemma InsertRebalanceLeftRight<V>(z: Tree<V>)
    requires z.Node? && z.left.Node? && z.left.right.Node?
    requires H(z.left) > H(z.right) && H(z.left.right) > H(z.left.left)
    ensures InsertRebalance(z) == RotateRight(Node(RotateLeft(z.left), z.key, z.val, z.height, z.right))
  {
    assert GetGreaterChild(z) == Left && GetGreaterChild(z.left) == Right;
  }

  lemma LeftRightRotations(y: Tree<char>)
    requires y == Node(Leaf, 1, 'a', 2, NewNode(2, 'b'))
    ensures RotateRight(Node(RotateLeft(y), 3, 'c', 3, Leaf)) == Node(NewNode(1, 'a'), 2, 'b', 2, NewNode(3, 'c'))
  {
    var y' := RotateLeft(y);
    assert RotateLeftForRemove(y) == Node(Node(Leaf, 1, 'a', 2, Leaf), 2, 'b', 1, Leaf);
    assert y' == Node(NewNode(1, 'a'), 2, 'b', 2, Leaf);
    var z' := Node(y', 3, 'c', 3, Leaf);
    assert RotateRightForRemove(z') == Node(NewNode(1, 'a'), 2, 'b', 2, Node(Leaf, 3, 'c', 3, Leaf));
  }
}
