/**
 * The mutating operations of BinarySearchTree (bst.h): insert, remove,
 * nodeSwap, clear and empty, and the isBalanced diagnostic.  None of them
 * rebalances; AVLTree (module Avl) overrides insert, remove and nodeSwap.
 */
module Bst {
  import opened Trees
  import opened TreeContents

  // ===========================================================================
  // insert
  // ===========================================================================

  /**
   * Walk down by key comparison (greater first); an equal key has its value
   * overwritten in place, otherwise a fresh node is hung in the empty slot
   * where the walk ends.
   */
  function Insert<V>(t: Tree<V>, k: int, v: V): (r: Tree<V>)
    ensures r.Node?
    ensures Keys(r) == Keys(t) + {k}
    ensures Ordered(t) ==> Ordered(r) && ToMap(r) == ToMap(t)[k := v]
    ensures Ordered(t) && k in Keys(t) ==> SameShape(r, t)
    ensures k !in Keys(t) ==> |Items(r)| == |Items(t)| + 1
  {
    match t
    case Leaf => NewNode(k, v)
    case Node(l, key, val, h, rt) =>
      if k > key then
        var r' := Insert(rt, k, v);
        var n := Node(l, key, val, h, r');
        InsertedRight(t, n, k, v, r');
        SameShapeRefl(l);
        n
      else if k < key then
        var l' := Insert(l, k, v);
        var n := Node(l', key, val, h, rt);
        InsertedLeft(t, n, k, v, l');
        SameShapeRefl(rt);
        n
      else
        var n := Node(l, key, v, h, rt);
        InsertedHere(t, n, v);
        SameShapeRefl(l);
        SameShapeRefl(rt);
        n
  }

  /** The node step of an insertion that found its key at the root of t. */
  lemma InsertedHere<V>(t: Tree<V>, n: Tree<V>, v: V)
    requires t.Node? && n == Node(t.left, t.key, v, t.height, t.right)
    ensures Ordered(t) ==> Ordered(n) && ToMap(n) == ToMap(t)[t.key := v]
  {
    var Node(l, key, val, h, r) := t;
    if Ordered(t) {
      KeysAreMapKeys(r);
      MapUpdateUnderRight(ToMap(l), map[key := val], key, v);
      assert map[key := val][key := v] == map[key := v];
      MapUpdateUnderLeft(ToMap(l) + map[key := val], ToMap(r), key, v);
    }
  }

  // ===========================================================================
  // remove
  // ===========================================================================

  /** The successor node taken out of a right subtree, and what is left. */
  datatype Spliced<V> = Spliced(key: int, val: V, height: int, rest: Tree<V>)

  /**
   * Take the leftmost node out of t, promoting its right child into its
   * slot.  The node keeps its own height: in the plain tree nodeSwap moves
   * whole nodes.
   */
  function SpliceLeftmost<V>(t: Tree<V>): (s: Spliced<V>)
    requires t.Node?
    ensures Items(t) == [(s.key, s.val)] + Items(s.rest)
    ensures Keys(t) == Keys(s.rest) + {s.key}
    ensures Ordered(t) ==> Ordered(s.rest) && AllAbove(s.rest, s.key) && ToMap(t) == ToMap(s.rest)[s.key := s.val]
    decreases t
  {
    if t.left.Leaf? then
      SplicedHere(t);
      Spliced(t.key, t.val, t.height, t.right)
    else
      var s := SpliceLeftmost(t.left);
      var rest := Node(s.rest, t.key, t.val, t.height, t.right);
      SplicedBelow(t, s.key, s.val, s.rest, rest);
      Spliced(s.key, s.val, s.height, rest)
  }

  lemma SplicedHere<V>(t: Tree<V>)
    requires t.Node? && t.left.Leaf?
    ensures Ordered(t) ==> ToMap(t) == ToMap(t.right)[t.key := t.val]
  {
    if Ordered(t) {
      KeysAreMapKeys(t.right);
      MapUpdateUnderLeft(map[], ToMap(t.right), t.key, t.val);
      assert map[][t.key := t.val] == ToMap(t.left) + map[t.key := t.val];
      assert map[] + ToMap(t.right) == ToMap(t.right);
    }
  }

  lemma SplicedBelow<V>(t: Tree<V>, sk: int, sv: V, lrest: Tree<V>, rest: Tree<V>)
    requires t.Node? && rest == Node(lrest, t.key, t.val, t.height, t.right)
    requires Keys(t.left) == Keys(lrest) + {sk}
    requires Ordered(t.left) ==> Ordered(lrest) && AllAbove(lrest, sk) && ToMap(t.left) == ToMap(lrest)[sk := sv]
    ensures Ordered(t) ==> Ordered(rest) && AllAbove(rest, sk) && ToMap(t) == ToMap(rest)[sk := sv]
  {
    if Ordered(t) {
      var Node(l, key, val, h, r) := t;
      assert sk in Keys(l);
      assert Ordered(rest) by {
        assert AllBelow(lrest, key) by {
          forall x | x in Keys(lrest) ensures x < key {
            assert x in Keys(l);
          }
        }
      }
      assert AllAbove(rest, sk) by {
        forall x | x in Keys(rest) ensures sk < x {
          if x in Keys(r) {
            assert key < x;
          }
        }
      }
      assert ToMap(t) == ToMap(rest)[sk := sv] by {
        KeysAreMapKeys(r);
        MapUpdateUnderLeft(ToMap(lrest), map[key := val], sk, sv);
        MapUpdateUnderLeft(ToMap(lrest) + map[key := val], ToMap(r), sk, sv);
      }
    }
  }

  /**
   * Search as internalFind does; an absent key changes nothing.  A node with
   * two children first trades places with its successor, which leaves it
   * with at most one child; a node with at most one child is replaced by
   * that child (or by nothing).
   */
  function Remove<V>(t: Tree<V>, k: int): (r: Tree<V>)
    ensures k !in Keys(t) ==> r == t
    ensures Keys(r) <= Keys(t)
    ensures Ordered(t) ==> Ordered(r) && ToMap(r) == ToMap(t) - {k} && Keys(r) == Keys(t) - {k}
  {
    match t
    case Leaf => Leaf
    case Node(l, key, val, h, rt) =>
      if key > k then
        var l' := Remove(l, k);
        var n := Node(l', key, val, h, rt);
        if Ordered(t) then RemovedLeft(t, n, k, l'); n else n
      else if key < k then
        var r' := Remove(rt, k);
        var n := Node(l, key, val, h, r');
        if Ordered(t) then RemovedRight(t, n, k, r'); n else n
      else if l.Node? && rt.Node? then
        var s := SpliceLeftmost(rt);
        var n := Node(l, s.key, s.val, s.height, s.rest);
        if Ordered(t) then RemovedBySuccessor(t, n, s.key, s.val, s.rest); n else n
      else if l.Node? then
        RemovedWithOneChild(t);
        l
      else
        RemovedWithOneChild(t);
        rt
  }

  lemma RemovedWithOneChild<V>(t: Tree<V>)
    requires t.Node? && (t.left.Leaf? || t.right.Leaf?)
    ensures Ordered(t) ==>
              var c := if t.left.Node? then t.left else t.right;
              ToMap(c) == ToMap(t) - {t.key} && Keys(c) == Keys(t) - {t.key}
  {
    if Ordered(t) {
      KeysAreMapKeys(t.left);
      KeysAreMapKeys(t.right);
    }
  }

  /** Upserting a pair that was just upserted changes nothing. */
  lemma InsertIdempotent<V>(t: Tree<V>, k: int, v: V)
    requires Ordered(t)
    ensures Insert(Insert(t, k, v), k, v) == Insert(t, k, v)
  {
    var r := Insert(t, k, v);
    assert ToMap(r)[k := v] == ToMap(r);
    SameShapeSameMap(Insert(r, k, v), r);
  }

  /** Inserting an absent key and removing it again gives back the very same tree. */
  lemma {:induction false} RemoveUndoesInsert<V>(t: Tree<V>, k: int, v: V)
    requires k !in Keys(t)
    ensures Remove(Insert(t, k, v), k) == t
  {
    match t
    case Leaf =>
    case Node(l, key, val, h, r) =>
      if k > key {
        RemoveUndoesInsert(r, k, v);
      } else {
        RemoveUndoesInsert(l, k, v);
      }
  }

  // ===========================================================================
  // nodeSwap
  // ===========================================================================

  /** A node position: the child directions taken from the root. */
  type Path = seq<Dir>

  /** The subtree at position p; a position below an empty slot is empty. */
  function At<V>(t: Tree<V>, p: Path): Tree<V>
    decreases |p|
  {
    if |p| == 0 || t.Leaf? then (if |p| == 0 then t else Leaf) else At(Child(t, p[0]), p[1..])
  }

  predicate IsNodeAt<V>(t: Tree<V>, p: Path) {
    At(t, p).Node?
  }

  /** What a node object carries apart from its links. */
  datatype Payload<V> = Payload(key: int, val: V, height: int)

  function PayloadAt<V>(t: Tree<V>, p: Path): Payload<V>
    requires IsNodeAt(t, p)
  {
    var n := At(t, p);
    Payload(n.key, n.val, n.height)
  }

  /** Put payload x at position p (nothing happens if no node is there). */
  function SetPayload<V>(t: Tree<V>, p: Path, x: Payload<V>): (r: Tree<V>)
    ensures SameSkeleton(r, t)
    decreases |p|
  {
    SameSkeletonRefl(t);
    if t.Leaf? then Leaf
    else if |p| == 0 then Node(t.left, x.key, x.val, x.height, t.right)
    else if p[0] == Left then Node(SetPayload(t.left, p[1..], x), t.key, t.val, t.height, t.right)
    else Node(t.left, t.key, t.val, t.height, SetPayload(t.right, p[1..], x))
  }

  lemma {:induction false} SameSkeletonRefl<V>(t: Tree<V>)
    ensures SameSkeleton(t, t)
  {
    if t.Node? {
      SameSkeletonRefl(t.left);
      SameSkeletonRefl(t.right);
    }
  }

  /** Same node positions, whatever the nodes carry. */
  predicate SameSkeleton<V>(a: Tree<V>, b: Tree<V>) {
    match a
    case Leaf => b.Leaf?
    case Node(al, _, _, _, ar) => b.Node? && SameSkeleton(al, b.left) && SameSkeleton(ar, b.right)
  }

  /**
   * nodeSwap(n1, n2): the two node objects exchange places, each taking the
   * other's parent and children.  Links stay with positions and the payloads
   * trade places.  Equal or null arguments change nothing.
   */
  function NodeSwap<V>(t: Tree<V>, p1: Path, p2: Path): (r: Tree<V>)
    ensures SameSkeleton(r, t)
    ensures p1 == p2 || !IsNodeAt(t, p1) || !IsNodeAt(t, p2) ==> r == t
  {
    SameSkeletonRefl(t);
    if p1 == p2 || !IsNodeAt(t, p1) || !IsNodeAt(t, p2) then t
    else
      var t1 := SetPayload(t, p1, PayloadAt(t, p2));
      SameSkeletonTrans(SetPayload(t1, p2, PayloadAt(t, p1)), t1, t);
      SetPayload(t1, p2, PayloadAt(t, p1))
  }

  lemma {:induction false} SameSkeletonTrans<V>(a: Tree<V>, b: Tree<V>, c: Tree<V>)
    requires SameSkeleton(a, b) && SameSkeleton(b, c)
    ensures SameSkeleton(a, c)
  {
    if a.Node? {
      SameSkeletonTrans(a.left, b.left, c.left);
      SameSkeletonTrans(a.right, b.right, c.right);
    }
  }

  lemma {:induction false} SameSkeletonNodes<V>(a: Tree<V>, b: Tree<V>, p: Path)
    requires SameSkeleton(a, b)
    ensures IsNodeAt(a, p) <==> IsNodeAt(b, p)
    decreases |p|
  {
    if |p| > 0 && a.Node? {
      SameSkeletonNodes(Child(a, p[0]), Child(b, p[0]), p[1..]);
    }
  }

  /** Reading back a position after writing one. */
  lemma {:induction false} PayloadAfterSet<V>(t: Tree<V>, p: Path, x: Payload<V>, q: Path)
    requires IsNodeAt(t, p) && IsNodeAt(t, q)
    ensures IsNodeAt(SetPayload(t, p, x), q)
    ensures PayloadAt(SetPayload(t, p, x), q) == if q == p then x else PayloadAt(t, q)
    decreases |p|
  {
    SameSkeletonNodes(SetPayload(t, p, x), t, q);
    if |p| > 0 && |q| > 0 {
      if p[0] == q[0] {
        PayloadAfterSet(Child(t, p[0]), p[1..], x, q[1..]);
        assert p[1..] == q[1..] <==> p == q;
      } else {
        assert p != q;
        assert At(SetPayload(t, p, x), q) == At(Child(t, q[0]), q[1..]);
      }
    }
  }

  /**
   * The node objects at p1 and p2 have traded places: each position now
   * carries what the other carried, and every other node is untouched.
   */
  lemma NodeSwapMoves<V>(t: Tree<V>, p1: Path, p2: Path, q: Path)
    requires IsNodeAt(t, p1) && IsNodeAt(t, p2) && IsNodeAt(t, q)
    ensures IsNodeAt(NodeSwap(t, p1, p2), q)
    ensures PayloadAt(NodeSwap(t, p1, p2), q) ==
              if q == p1 then PayloadAt(t, p2)
              else if q == p2 then PayloadAt(t, p1)
              else PayloadAt(t, q)
  {
    if p1 != p2 {
      var t1 := SetPayload(t, p1, PayloadAt(t, p2));
      PayloadAfterSet(t, p1, PayloadAt(t, p2), q);
      PayloadAfterSet(t, p1, PayloadAt(t, p2), p2);
      PayloadAfterSet(t1, p2, PayloadAt(t, p1), q);
    }
  }

  lemma {:induction false} SetPayloadTwice<V>(t: Tree<V>, p: Path, x: Payload<V>, y: Payload<V>)
    ensures SetPayload(SetPayload(t, p, x), p, y) == SetPayload(t, p, y)
    decreases |p|
  {
    if t.Node? && |p| > 0 {
      SetPayloadTwice(Child(t, p[0]), p[1..], x, y);
    }
  }

  lemma {:induction false} SetPayloadCommutes<V>(t: Tree<V>, p: Path, x: Payload<V>, q: Path, y: Payload<V>)
    requires p != q
    ensures SetPayload(SetPayload(t, p, x), q, y) == SetPayload(SetPayload(t, q, y), p, x)
    decreases |p|
  {
    if t.Node? && |p| > 0 && |q| > 0 && p[0] == q[0] {
      assert p[1..] != q[1..];
      SetPayloadCommutes(Child(t, p[0]), p[1..], x, q[1..], y);
    }
  }

  lemma {:induction false} SetPayloadOwn<V>(t: Tree<V>, p: Path)
    requires IsNodeAt(t, p)
    ensures SetPayload(t, p, PayloadAt(t, p)) == t
    decreases |p|
  {
    if |p| > 0 {
      SetPayloadOwn(Child(t, p[0]), p[1..]);
    }
  }

  /** Swapping the same two nodes twice restores the tree. */
  lemma NodeSwapTwice<V>(t: Tree<V>, p1: Path, p2: Path)
    ensures NodeSwap(NodeSwap(t, p1, p2), p1, p2) == t
  {
    if p1 != p2 && IsNodeAt(t, p1) && IsNodeAt(t, p2) {
      var a := PayloadAt(t, p1);
      var b := PayloadAt(t, p2);
      var s := NodeSwap(t, p1, p2);
      NodeSwapMoves(t, p1, p2, p1);
      NodeSwapMoves(t, p1, p2, p2);
      // s == Set(Set(t, p1, b), p2, a); swapping again writes a at p1 and b at p2
      calc {
        NodeSwap(s, p1, p2);
        SetPayload(SetPayload(SetPayload(SetPayload(t, p1, b), p2, a), p1, a), p2, b);
        { SetPayloadCommutes(SetPayload(t, p1, b), p2, a, p1, a); }
        SetPayload(SetPayload(SetPayload(SetPayload(t, p1, b), p1, a), p2, a), p2, b);
        { SetPayloadTwice(t, p1, b, a); SetPayloadTwice(SetPayload(t, p1, a), p2, a, b); }
        SetPayload(SetPayload(t, p1, a), p2, b);
        { SetPayloadOwn(t, p1); }
        SetPayload(t, p2, b);
        { SetPayloadOwn(t, p2); }
        t;
      }
    }
  }

  /** nodeSwap(n1, n2) and nodeSwap(n2, n1) do the same. */
  lemma NodeSwapSymmetric<V>(t: Tree<V>, p1: Path, p2: Path)
    ensures NodeSwap(t, p1, p2) == NodeSwap(t, p2, p1)
  {
    if p1 != p2 && IsNodeAt(t, p1) && IsNodeAt(t, p2) {
      SetPayloadCommutes(t, p1, PayloadAt(t, p2), p2, PayloadAt(t, p1));
    }
  }

  // ===========================================================================
  // clear, empty
  // ===========================================================================

  /** clear: every node is released and the root becomes null. */
  function Clear<V>(t: Tree<V>): (r: Tree<V>)
    ensures Items(r) == [] && ToMap(r) == map[]
  {
    Leaf
  }

  /** empty: the root is null. */
  function Empty<V>(t: Tree<V>): (b: bool)
    ensures b <==> Items(t) == []
    ensures b <==> ToMap(t) == map[]
  {
    assert t.Node? ==> (t.key, t.val) in Items(t) && t.key in ToMap(t);
    t.Leaf?
  }

  // ===========================================================================
  // isBalanced
  // ===========================================================================

  /** The two results of isBalancedHelper: the height (null = -1) and the flag. */
  datatype Checked = Checked(height: int, balanced: bool)

  /** Height balance judged on the true heights, the property isBalanced reports. */
  ghost predicate TrulyBalanced<V>(t: Tree<V>) {
    match t
    case Leaf => true
    case Node(l, _, _, _, r) =>
      TrulyBalanced(l) && TrulyBalanced(r) && -1 <= TrueHeight(l) - TrueHeight(r) <= 1
  }

  /**
   * isBalancedHelper: recompute each subtree's height from scratch, counting
   * a null child as -1, and clear the flag at any node whose children's
   * heights differ by more than one.  The flag is only ever cleared, so it
   * ends up as the conjunction over all nodes.
   */
  function IsBalancedHelper<V>(t: Tree<V>): (c: Checked)
    ensures c.height == TrueHeight(t) - 1
    ensures c.balanced <==> TrulyBalanced(t)
  {
    match t
    case Leaf => Checked(-1, true)
    case Node(l, _, _, _, r) =>
      var hl := IsBalancedHelper(l);
      var hr := IsBalancedHelper(r);
      var diff := hl.height - hr.height;
      var abs := if diff < 0 then -diff else diff;
      Checked(Max(hl.height, hr.height) + 1, hl.balanced && hr.balanced && !(abs > 1))
  }

  function IsBalanced<V>(t: Tree<V>): (b: bool)
    ensures b <==> TrulyBalanced(t)
  {
    IsBalancedHelper(t).balanced
  }

  /** With consistent cached heights, isBalanced agrees with the AVL balance invariant. */
  lemma {:induction false} IsBalancedMatchesCache<V>(t: Tree<V>)
    requires HeightsOk(t)
    ensures IsBalanced(t) <==> Balanced(t)
  {
    match t
    case Leaf =>
    case Node(l, _, _, _, r) =>
      IsBalancedMatchesCache(l);
      IsBalancedMatchesCache(r);
      CachedIsTrueHeight(l);
      CachedIsTrueHeight(r);
  }
}
