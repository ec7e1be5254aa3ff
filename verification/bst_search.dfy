/**
 * Read-only navigation of BinarySearchTree (bst.h): internalFind, find,
 * getSmallestNode, begin, end, successor, predecessor and iterator::operator++.
 *
 * bst.h navigates with parent pointers.  A value tree has none, so a
 * node inside a tree is designated by a `Cursor`: the subtree rooted at the
 * node (`focus`) plus the path back to the root, one `Frame` per ancestor,
 * nearest first.  `Plug` rebuilds the whole tree, so "a pointer to a node of
 * t" is "a cursor c with Plug(c) == t and c.focus a node"; moving to
 * `up[0]` is following the parent pointer, and `up == []` is a null parent.
 * An iterator is an `Option<Cursor>`; `None` is the null pointer that marks
 * the end.
 */
module BstSearch {
  import opened Trees

  /** An ancestor of the focus: the focus hangs on side `side` of this node. */
  datatype Frame<V> = Frame(side: Dir, key: int, val: V, height: int, sibling: Tree<V>)

  datatype Cursor<V> = Cursor(focus: Tree<V>, up: seq<Frame<V>>)

  /** Hang t back under the ancestor described by f. */
  function Attach<V>(f: Frame<V>, t: Tree<V>): Tree<V> {
    if f.side == Left then Node(t, f.key, f.val, f.height, f.sibling)
    else Node(f.sibling, f.key, f.val, f.height, t)
  }

  /** The whole tree the cursor is positioned in. */
  function Plug<V>(c: Cursor<V>): Tree<V>
    decreases |c.up|
  {
    if |c.up| == 0 then c.focus else Plug(Cursor(Attach(c.up[0], c.focus), c.up[1..]))
  }

  /** Move to the parent: the parent's subtree becomes the focus. */
  function Parent<V>(c: Cursor<V>): Cursor<V>
    requires |c.up| > 0
  {
    Cursor(Attach(c.up[0], c.focus), c.up[1..])
  }

  /** Move to the child on side d of the focus. */
  function Down<V>(c: Cursor<V>, d: Dir): Cursor<V>
    requires c.focus.Node?
  {
    var n := c.focus;
    Cursor(Child(n, d), [Frame(d, n.key, n.val, n.height, Child(n, Opposite(d)))] + c.up)
  }

  /** In-order items of the whole tree that come before the focus subtree. */
  function Before<V>(up: seq<Frame<V>>): seq<(int, V)> {
    if |up| == 0 then []
    else if up[0].side == Left then Before(up[1..])
    else Before(up[1..]) + Items(up[0].sibling) + [(up[0].key, up[0].val)]
  }

  /** In-order items of the whole tree that come after the focus subtree. */
  function After<V>(up: seq<Frame<V>>): seq<(int, V)> {
    if |up| == 0 then []
    else if up[0].side == Right then After(up[1..])
    else [(up[0].key, up[0].val)] + Items(up[0].sibling) + After(up[1..])
  }

  /** Position of the focused node in the in-order sequence of the whole tree. */
  function Index<V>(c: Cursor<V>): nat
    requires c.focus.Node?
  {
    |Before(c.up)| + |Items(c.focus.left)|
  }

  /** What dereferencing an iterator gives: the focused node's key and value. */
  function Deref<V>(c: Cursor<V>): (kv: (int, V))
    requires c.focus.Node?
    ensures kv.0 == c.focus.key && kv.1 == c.focus.val
  {
    (c.focus.key, c.focus.val)
  }

  // ---------------------------------------------------------------------------
  // Descending
  // ---------------------------------------------------------------------------

  /** Follow left children to the end: the smallest node of the focus subtree. */
  function Leftmost<V>(c: Cursor<V>): (m: Cursor<V>)
    requires c.focus.Node?
    ensures m.focus.Node? && m.focus.left.Leaf?
    ensures Plug(m) == Plug(c) && Index(m) == |Before(c.up)|
    decreases c.focus
  {
    if c.focus.left.Leaf? then c
    else
      DownFacts(c, Left);
      Leftmost(Down(c, Left))
  }

  /** Follow right children to the end: the largest node of the focus subtree. */
  function Rightmost<V>(c: Cursor<V>): (m: Cursor<V>)
    requires c.focus.Node?
    ensures m.focus.Node? && m.focus.right.Leaf?
    ensures Plug(m) == Plug(c) && Index(m) == |Before(c.up)| + |Items(c.focus)| - 1
    decreases c.focus
  {
    if c.focus.right.Leaf? then c
    else
      DownFacts(c, Right);
      Rightmost(Down(c, Right))
  }

  /** getSmallestNode: null for an empty tree, else the leftmost node. */
  function GetSmallestNode<V>(t: Tree<V>): (it: Option<Cursor<V>>)
    ensures it.None? <==> t.Leaf?
    ensures it.Some? ==> it.value.focus.Node? && it.value.focus.left.Leaf?
  {
    if t.Leaf? then None else Some(Leftmost(Cursor(t, [])))
  }

  /** begin(): an iterator at the smallest node. */
  function Begin<V>(t: Tree<V>): (it: Option<Cursor<V>>)
    ensures it.None? <==> t.Leaf?
    ensures it.Some? ==> it.value.focus.Node? && Plug(it.value) == t && Index(it.value) == 0
    ensures it.Some? && Ordered(t) ==> forall x :: x in Keys(t) ==> it.value.focus.key <= x
  {
    SmallestIsFirst(t);
    GetSmallestNode(t)
  }

  /**
   * end(): the null iterator, which is also what Advance returns from the
   * last item and what Find returns for an absent key.
   */
  function End<V>(): (it: Option<Cursor<V>>)
    ensures it.None?
  {
    None
  }

  /**
   * internalFind from the focus of c downward: a node whose key is larger
   * sends the search left, a smaller one right, an equal one ends it; an
   * empty slot means the key is absent.
   */
  function FindFrom<V>(c: Cursor<V>, k: int): (it: Option<Cursor<V>>)
    ensures it.Some? ==> it.value.focus.Node? && it.value.focus.key == k
    ensures it.Some? ==> Plug(it.value) == Plug(c)
    ensures Ordered(c.focus) ==> (it.Some? <==> k in Keys(c.focus))
    decreases c.focus
  {
    match c.focus
    case Leaf => None
    case Node(_, key, _, _, _) =>
      if key > k then
        DownFacts(c, Left);
        FindFrom(Down(c, Left), k)
      else if key < k then
        DownFacts(c, Right);
        FindFrom(Down(c, Right), k)
      else Some(c)
  }

  function InternalFind<V>(t: Tree<V>, k: int): (it: Option<Cursor<V>>)
    ensures it.Some? ==> it.value.focus.Node? && it.value.focus.key == k && Plug(it.value) == t
    ensures Ordered(t) ==> (it.Some? <==> k in Keys(t))
    ensures Ordered(t) && it.Some? ==>
              k in ToMap(t) && Index(it.value) < |Items(t)| && Items(t)[Index(it.value)] == (k, ToMap(t)[k])
  {
    FindFromRoot(t, k);
    FindFrom(Cursor(t, []), k)
  }

  /** find(k): an iterator at k's node, or end() if k is absent. */
  function Find<V>(t: Tree<V>, k: int): (it: Option<Cursor<V>>)
    ensures it.Some? ==> it.value.focus.Node? && it.value.focus.key == k && Plug(it.value) == t
    ensures Ordered(t) ==> (it.Some? <==> k in Keys(t))
    ensures Ordered(t) && it.Some? ==>
              k in ToMap(t) && Index(it.value) < |Items(t)| && Items(t)[Index(it.value)] == (k, ToMap(t)[k])
  {
    InternalFind(t, k)
  }

  // ---------------------------------------------------------------------------
  // Climbing
  // ---------------------------------------------------------------------------

  /**
   * The upward half of successor: climb while the current node is its
   * parent's right child; the parent reached from a left child is the
   * answer, and running out of parents gives null.
   */
  function ClimbWhileRightChild<V>(c: Cursor<V>): (it: Option<Cursor<V>>)
    ensures it.Some? ==> it.value.focus.Node?
    ensures it.Some? ==> Plug(it.value) == Plug(c) && Index(it.value) == |Before(c.up)| + |Items(c.focus)|
    ensures it.None? ==> |Before(c.up)| + |Items(c.focus)| == |Items(Plug(c))|
    decreases |c.up|
  {
    if |c.up| == 0 then None
    else if c.up[0].side == Right then
      var f := c.up[0];
      assert Items(Attach(f, c.focus)) == Items(f.sibling) + [(f.key, f.val)] + Items(c.focus);
      ClimbWhileRightChild(Parent(c))
    else
      PlugItems(c);
      Some(Parent(c))
  }

  /** The upward half of predecessor: the mirror image. */
  function ClimbWhileLeftChild<V>(c: Cursor<V>): (it: Option<Cursor<V>>)
    ensures it.Some? ==> it.value.focus.Node?
    ensures it.Some? ==> Plug(it.value) == Plug(c) && Index(it.value) + 1 == |Before(c.up)|
    ensures it.None? ==> |Before(c.up)| == 0
    decreases |c.up|
  {
    if |c.up| == 0 then None
    else if c.up[0].side == Left then ClimbWhileLeftChild(Parent(c))
    else
      var f := c.up[0];
      assert Items(Attach(f, c.focus)) == Items(f.sibling) + [(f.key, f.val)] + Items(c.focus);
      Some(Parent(c))
  }

  /** successor(s): leftmost node of the right subtree, or the first ancestor reached from a left child. */
  function Successor<V>(c: Cursor<V>): (it: Option<Cursor<V>>)
    requires c.focus.Node?
    ensures it.Some? ==> it.value.focus.Node?
  {
    if c.focus.right.Node? then Some(Leftmost(Down(c, Right))) else ClimbWhileRightChild(c)
  }

  /** predecessor(current): null stays null; otherwise the mirror image of successor. */
  function Predecessor<V>(it: Option<Cursor<V>>): (p: Option<Cursor<V>>)
    requires it.Some? ==> it.value.focus.Node?
    ensures it.None? ==> p.None?
    ensures p.Some? ==> p.value.focus.Node?
    ensures it.Some? && p.Some? ==> Plug(p.value) == Plug(it.value) && Index(p.value) + 1 == Index(it.value)
    ensures it.Some? ==> (p.None? <==> Index(it.value) == 0)
  {
    match it
    case None => None
    case Some(c) =>
      if c.focus.left.Node? then
        DownFacts(c, Left);
        Some(Rightmost(Down(c, Left)))
      else ClimbWhileLeftChild(c)
  }

  /** iterator::operator++. */
  function Advance<V>(it: Option<Cursor<V>>): (next: Option<Cursor<V>>)
    requires it.Some? && it.value.focus.Node?
    ensures next.Some? ==> next.value.focus.Node?
    ensures next.Some? ==> Plug(next.value) == Plug(it.value) && Index(next.value) == Index(it.value) + 1
    ensures next.None? <==> Index(it.value) == |Items(Plug(it.value))| - 1
    ensures next.Some? && Ordered(Plug(it.value)) ==>
              && it.value.focus.key < next.value.focus.key
              && forall x :: x in Keys(Plug(it.value)) ==> x <= it.value.focus.key || next.value.focus.key <= x
  {
    SuccessorIsNext(it.value);
    if Ordered(Plug(it.value)) then
      SuccessorIsNextLargerKey(it.value);
      Successor(it.value)
    else Successor(it.value)
  }

  // ---------------------------------------------------------------------------
  // The in-order position of a cursor
  // ---------------------------------------------------------------------------

  /** The whole tree's items split around the focus subtree. */
  lemma {:induction false} PlugItems<V>(c: Cursor<V>)
    ensures Items(Plug(c)) == Before(c.up) + Items(c.focus) + After(c.up)
    decreases |c.up|
  {
    if |c.up| > 0 {
      PlugItems(Parent(c));
      var f := c.up[0];
      if f.side == Left {
        assert Items(Attach(f, c.focus)) == Items(c.focus) + [(f.key, f.val)] + Items(f.sibling);
      } else {
        assert Items(Attach(f, c.focus)) == Items(f.sibling) + [(f.key, f.val)] + Items(c.focus);
      }
    }
  }

  /** The focused node's item sits at Index(c) of the whole tree's in-order sequence. */
  lemma ItemAtIndex<V>(c: Cursor<V>)
    requires c.focus.Node?
    ensures Index(c) < |Items(Plug(c))|
    ensures Items(Plug(c))[Index(c)] == Deref(c)
  {
    PlugItems(c);
    var n := c.focus;
    assert Items(n) == Items(n.left) + [(n.key, n.val)] + Items(n.right);
    assert (Before(c.up) + Items(n) + After(c.up))[Index(c)] == Items(n)[|Items(n.left)|];
  }

  /** Moving down keeps the tree and the items before the focus account for the skipped part. */
  lemma DownFacts<V>(c: Cursor<V>, d: Dir)
    requires c.focus.Node?
    ensures Plug(Down(c, d)) == Plug(c)
    ensures d == Left ==> Before(Down(c, d).up) == Before(c.up)
    ensures d == Right ==> Before(Down(c, d).up) == Before(c.up) + Items(c.focus.left) + [Deref(c)]
  {
    var c' := Down(c, d);
    assert c'.up[1..] == c.up;
  }

  /**
   * successor moves one step along the in-order sequence of the same tree,
   * and returns null exactly at the last item.
   */
  lemma SuccessorIsNext<V>(c: Cursor<V>)
    requires c.focus.Node?
    ensures var it := Successor(c);
              && (it.Some? ==> Plug(it.value) == Plug(c) && Index(it.value) == Index(c) + 1)
              && (it.None? <==> Index(c) == |Items(Plug(c))| - 1)
  {
    ItemAtIndex(c);
    if c.focus.right.Node? {
      DownFacts(c, Right);
      ItemAtIndex(Leftmost(Down(c, Right)));
    } else {
      assert |Items(c.focus)| == |Items(c.focus.left)| + 1;
      var it := Successor(c);
      if it.Some? {
        ItemAtIndex(it.value);
      }
    }
  }

  /** Successor and predecessor undo each other. */
  lemma PredecessorOfSuccessor<V>(c: Cursor<V>)
    requires c.focus.Node? && Successor(c).Some?
    ensures var s := Successor(c).value;
              Predecessor(Some(s)).Some? && Index(Predecessor(Some(s)).value) == Index(c)
  {
    SuccessorIsNext(c);
  }

  /** In an ordered tree the successor holds the next larger key: no key lies strictly between. */
  lemma SuccessorIsNextLargerKey<V>(c: Cursor<V>)
    requires c.focus.Node? && Ordered(Plug(c))
    ensures var it := Successor(c);
              && (it.Some? ==> c.focus.key < it.value.focus.key
                                && forall x :: x in Keys(Plug(c)) ==> x <= c.focus.key || it.value.focus.key <= x)
              && (it.None? ==> forall x :: x in Keys(Plug(c)) ==> x <= c.focus.key)
  {
    var t := Plug(c);
    SuccessorIsNext(c);
    ItemAtIndex(c);
    NoKeyBetween(t, Index(c));
    var it := Successor(c);
    if it.Some? {
      ItemAtIndex(it.value);
      OrderedItemsAscending(t);
    }
  }

  /** In an ordered tree no key lies strictly between the items at positions i and i + 1. */
  lemma NoKeyBetween<V>(t: Tree<V>, i: nat)
    requires Ordered(t) && i < |Items(t)|
    ensures forall x :: x in Keys(t) ==> x <= Items(t)[i].0 || (i + 1 < |Items(t)| && Items(t)[i + 1].0 <= x)
  {
    var s := Items(t);
    OrderedItemsAscending(t);
    forall x | x in Keys(t)
      ensures x <= s[i].0 || (i + 1 < |s| && s[i + 1].0 <= x)
    {
      var j := KeyHasIndex(t, x);
      if j > i + 1 {
        assert s[i + 1].0 < s[j].0;
      } else if j < i {
        assert s[j].0 < s[i].0;
      }
    }
  }


  /** getSmallestNode gives the first item, which in a search tree holds the minimum key. */
  lemma SmallestIsFirst<V>(t: Tree<V>)
    ensures var it := GetSmallestNode(t);
              it.Some? ==> Plug(it.value) == t && Index(it.value) == 0
    ensures var it := GetSmallestNode(t);
              it.Some? && Ordered(t) ==> forall x :: x in Keys(t) ==> it.value.focus.key <= x
  {
    if t.Node? {
      var c := Leftmost(Cursor(t, []));
      if Ordered(t) {
        ItemAtIndex(c);
        OrderedItemsAscending(t);
        forall x | x in Keys(t)
          ensures c.focus.key <= x
        {
          var j := KeyHasIndex(t, x);
          assert Items(t)[0].0 == c.focus.key;
        }
      }
    }
  }

  // ---------------------------------------------------------------------------
  // Search
  // ---------------------------------------------------------------------------


  lemma FindFromRoot<V>(t: Tree<V>, k: int)
    ensures var it := FindFrom(Cursor(t, []), k);
              && (it.Some? ==> Plug(it.value) == t)
              && (Ordered(t) ==> (it.Some? <==> k in Keys(t)))
              && (Ordered(t) && it.Some? ==>
                    k in ToMap(t) && Index(it.value) < |Items(t)| && Items(t)[Index(it.value)] == (k, ToMap(t)[k]))
  {
    var it := FindFrom(Cursor(t, []), k);
    if it.Some? && Ordered(t) {
      PlugValue(it.value);
    }
  }

  /** In an ordered tree, the item at a key's position carries the map's value for it. */
  lemma PlugValue<V>(c: Cursor<V>)
    requires c.focus.Node? && Ordered(Plug(c))
    ensures c.focus.key in ToMap(Plug(c)) && Index(c) < |Items(Plug(c))|
    ensures Items(Plug(c))[Index(c)] == (c.focus.key, ToMap(Plug(c))[c.focus.key])
  {
    ItemAtIndex(c);
    ItemValueIsMapValue(Plug(c), Index(c));
  }

  lemma {:induction false} ItemValueIsMapValue<V>(t: Tree<V>, i: nat)
    requires Ordered(t) && i < |Items(t)|
    ensures Items(t)[i].0 in ToMap(t) && ToMap(t)[Items(t)[i].0] == Items(t)[i].1
  {
    match t
    case Node(l, k, v, _, r) =>
      var n := |Items(l)|;
      KeysAreMapKeys(l);
      KeysAreMapKeys(r);
      ItemKeysAreKeys(l);
      ItemKeysAreKeys(r);
      if i < n {
        assert Items(t)[i] == Items(l)[i];
        ItemValueIsMapValue(l, i);
        var x := Items(l)[i].0;
        assert x < k && x !in Keys(r);
      } else if i > n {
        assert Items(t)[i] == Items(r)[i - n - 1];
        ItemValueIsMapValue(r, i - n - 1);
      } else {
        assert k !in Keys(r);
      }
  }

  // ---------------------------------------------------------------------------
  // Iteration
  // ---------------------------------------------------------------------------

  /** A range-for over the tree: begin(), then ++ until end(), collecting the items. */
  method Traverse<V>(t: Tree<V>) returns (items: seq<(int, V)>)
    ensures items == Items(t)
    ensures Ordered(t) ==> Ascending(items)
  {
    items := [];
    var it := Begin(t);
    SmallestIsFirst(t);
    while it.Some?
      invariant it.Some? ==> it.value.focus.Node? && Plug(it.value) == t && Index(it.value) == |items|
      invariant |items| <= |Items(t)| && items == Items(t)[..|items|]
      invariant it.None? ==> |items| == |Items(t)|
      decreases |Items(t)| - |items|
    {
      var c := it.value;
      ItemAtIndex(c);
      SuccessorIsNext(c);
      items := items + [Deref(c)];
      it := Advance(it);
    }
    assert items == Items(t)[..|Items(t)|];
    if Ordered(t) {
      OrderedItemsAscending(t);
    }
  }
}
