/**
 * The node structure shared by the plain binary search tree and the AVL tree,
 * together with the abstractions every operation is proved against: the
 * in-order item sequence, the key set, the key-to-value map, search-tree
 * ordering and the two AVL invariants on cached heights.
 *
 * A `Tree` value stands for the subtree hanging from one child pointer; `Leaf`
 * is the null pointer.  Parent pointers are not stored: in a value tree the
 * parent/child relation is consistent by construction, and the operations that
 * climb through parents work on a `Cursor` (module BstSearch).
 */
module Trees {

  datatype Option<T> = None | Some(value: T)

  /** The child slot a node occupies under its parent. */
  datatype Dir = Left | Right

  /**
   * `height` is the cached height of an AVL node.  The plain search tree never
   * reads it; it only carries it along with the node.
   */
  datatype Tree<V> = Leaf | Node(left: Tree<V>, key: int, val: V, height: int, right: Tree<V>)

  /** The height the AVL node constructor gives a freshly allocated node. */
  const NewHeight: int := 1

  /** A freshly allocated node: no children, height 1. */
  function NewNode<V>(k: int, v: V): (r: Tree<V>)
    ensures r.Node? && r.left.Leaf? && r.right.Leaf?
    ensures r.key == k && r.val == v && r.height == 1
  {
    Node(Leaf, k, v, NewHeight, Leaf)
  }

  function Max(a: int, b: int): int {
    if a >= b then a else b
  }

  /** Cached height of a possibly absent child; an absent child counts as 0. */
  function H<V>(t: Tree<V>): int {
    if t.Leaf? then 0 else t.height
  }

  function Child<V>(t: Tree<V>, d: Dir): Tree<V>
    requires t.Node?
  {
    if d == Left then t.left else t.right
  }

  function Opposite(d: Dir): Dir {
    if d == Left then Right else Left
  }

  /** The in-order sequence of (key, value) items: what the iterator visits. */
  function Items<V>(t: Tree<V>): seq<(int, V)> {
    match t
    case Leaf => []
    case Node(l, k, v, _, r) => Items(l) + [(k, v)] + Items(r)
  }

  function Keys<V>(t: Tree<V>): set<int> {
    match t
    case Leaf => {}
    case Node(l, k, _, _, r) => Keys(l) + {k} + Keys(r)
  }

  /** The abstract map the tree stores. */
  function ToMap<V>(t: Tree<V>): map<int, V> {
    match t
    case Leaf => map[]
    case Node(l, k, v, _, r) => ToMap(l) + map[k := v] + ToMap(r)
  }

  predicate AllBelow<V>(t: Tree<V>, k: int) {
    forall x :: x in Keys(t) ==> x < k
  }

  predicate AllAbove<V>(t: Tree<V>, k: int) {
    forall x :: x in Keys(t) ==> k < x
  }

  /** Search-tree ordering: left keys < node key < right keys, at every node. */
  predicate Ordered<V>(t: Tree<V>) {
    match t
    case Leaf => true
    case Node(l, k, _, _, r) => Ordered(l) && Ordered(r) && AllBelow(l, k) && AllAbove(r, k)
  }

  /** Cached height = 1 + max(child heights) at every node. */
  predicate HeightsOk<V>(t: Tree<V>) {
    match t
    case Leaf => true
    case Node(l, _, _, h, r) => HeightsOk(l) && HeightsOk(r) && h == 1 + Max(H(l), H(r))
  }

  /** |h(left) - h(right)| <= 1 at every node, on cached heights. */
  predicate Balanced<V>(t: Tree<V>) {
    match t
    case Leaf => true
    case Node(l, _, _, _, r) => Balanced(l) && Balanced(r) && -1 <= H(l) - H(r) <= 1
  }

  predicate AvlShape<V>(t: Tree<V>) {
    HeightsOk(t) && Balanced(t)
  }

  /** The three invariants every public AVL operation re-establishes. */
  predicate Avl<V>(t: Tree<V>) {
    Ordered(t) && AvlShape(t)
  }

  /** The height recomputed from the structure, ignoring every cached field. */
  function TrueHeight<V>(t: Tree<V>): nat {
    match t
    case Leaf => 0
    case Node(l, _, _, _, r) => 1 + if TrueHeight(l) >= TrueHeight(r) then TrueHeight(l) else TrueHeight(r)
  }

  /** Same nodes, keys and cached heights in the same places; values may differ. */
  predicate SameShape<V>(a: Tree<V>, b: Tree<V>) {
    match a
    case Leaf => b.Leaf?
    case Node(al, ak, _, ah, ar) =>
      b.Node? && ak == b.key && ah == b.height && SameShape(al, b.left) && SameShape(ar, b.right)
  }

  /** Strictly ascending keys. */
  predicate Ascending<V>(s: seq<(int, V)>) {
    forall i, j :: 0 <= i < j < |s| ==> s[i].0 < s[j].0
  }

  // ---------------------------------------------------------------------------
  // Basic facts about the abstractions
  // ---------------------------------------------------------------------------

  lemma {:induction false} KeysAreMapKeys<V>(t: Tree<V>)
    ensures Keys(t) == ToMap(t).Keys
  {
    match t
    case Leaf =>
    case Node(l, k, v, _, r) =>
      KeysAreMapKeys(l);
      KeysAreMapKeys(r);
  }

  /** Under consistent cached heights the cached height is the true height. */
  lemma {:induction false} CachedIsTrueHeight<V>(t: Tree<V>)
    requires HeightsOk(t)
    ensures H(t) == TrueHeight(t)
  {
    match t
    case Leaf =>
    case Node(l, _, _, _, r) =>
      CachedIsTrueHeight(l);
      CachedIsTrueHeight(r);
  }

  lemma TrueHeightWhenCached<V>(t: Tree<V>)
    ensures HeightsOk(t) ==> H(t) == TrueHeight(t)
  {
    if HeightsOk(t) {
      CachedIsTrueHeight(t);
    }
  }

  lemma {:induction false} ItemKeysAreKeys<V>(t: Tree<V>)
    ensures forall i :: 0 <= i < |Items(t)| ==> Items(t)[i].0 in Keys(t)
  {
    match t
    case Leaf =>
    case Node(l, k, v, _, r) =>
      ItemKeysAreKeys(l);
      ItemKeysAreKeys(r);
      var s := Items(t);
      forall i | 0 <= i < |s|
        ensures s[i].0 in Keys(t)
      {
        if i < |Items(l)| {
          assert s[i] == Items(l)[i];
        } else if i > |Items(l)| {
          assert s[i] == Items(r)[i - |Items(l)| - 1];
        }
      }
  }

  /** Every key sits at some position of the in-order sequence. */
  lemma {:induction false} KeyHasIndex<V>(t: Tree<V>, x: int) returns (i: nat)
    requires x in Keys(t)
    ensures i < |Items(t)| && Items(t)[i].0 == x
  {
    match t
    case Node(l, k, v, _, r) =>
      if x in Keys(l) {
        i := KeyHasIndex(l, x);
        assert Items(t)[i] == Items(l)[i];
      } else if x == k {
        i := |Items(l)|;
      } else {
        var j := KeyHasIndex(r, x);
        i := |Items(l)| + 1 + j;
        assert Items(t)[i] == Items(r)[j];
      }
  }

  /** Search-tree ordering makes the in-order sequence strictly ascending. */
  lemma {:induction false} OrderedItemsAscending<V>(t: Tree<V>)
    requires Ordered(t)
    ensures Ascending(Items(t))
  {
    match t
    case Leaf =>
    case Node(l, k, v, _, r) =>
      OrderedItemsAscending(l);
      OrderedItemsAscending(r);
      ItemKeysAreKeys(l);
      ItemKeysAreKeys(r);
      var s := Items(t);
      var n := |Items(l)|;
      forall i, j | 0 <= i < j < |s|
        ensures s[i].0 < s[j].0
      {
        if j < n {
          assert s[i] == Items(l)[i] && s[j] == Items(l)[j];
        } else if i > n {
          assert s[i] == Items(r)[i - n - 1] && s[j] == Items(r)[j - n - 1];
        } else {
          assert i < n ==> s[i] == Items(l)[i] && s[i].0 in Keys(l);
          assert j > n ==> s[j] == Items(r)[j - n - 1] && s[j].0 in Keys(r);
        }
      }
  }

  /** Only an ordered tree has an ascending in-order sequence (converse of the above). */
  lemma {:induction false} AscendingItemsOrdered<V>(t: Tree<V>)
    requires Ascending(Items(t))
    ensures Ordered(t)
  {
    match t
    case Leaf =>
    case Node(l, k, v, _, r) =>
      var s := Items(t);
      var n := |Items(l)|;
      assert Items(l) == s[..n];
      assert Items(r) == s[n + 1..];
      AscendingItemsOrdered(l);
      AscendingItemsOrdered(r);
      forall x | x in Keys(l)
        ensures x < k
      {
        var i := KeyHasIndex(l, x);
        assert s[i] == Items(l)[i] && s[n] == (k, v);
      }
      forall x | x in Keys(r)
        ensures k < x
      {
        var j := KeyHasIndex(r, x);
        assert s[n + 1 + j] == Items(r)[j] && s[n] == (k, v);
      }
  }

  // ---------------------------------------------------------------------------
  // Map algebra for the node equation ToMap(l) + {k: v} + ToMap(r)
  // ---------------------------------------------------------------------------

  lemma MapUpdateUnderRight<V>(a: map<int, V>, b: map<int, V>, k: int, v: V)
    ensures a + b[k := v] == (a + b)[k := v]
  {
  }

  lemma MapUpdateUnderLeft<V>(a: map<int, V>, b: map<int, V>, k: int, v: V)
    requires k !in b
    ensures a[k := v] + b == (a + b)[k := v]
  {
  }

  lemma MapRemoveUnderLeft<V>(a: map<int, V>, b: map<int, V>, k: int)
    requires k !in b
    ensures (a - {k}) + b == (a + b) - {k}
  {
  }

  lemma MapRemoveUnderRight<V>(a: map<int, V>, b: map<int, V>, k: int)
    requires k !in a
    ensures a + (b - {k}) == (a + b) - {k}
  {
  }

  /** Removing a two-child node's key: its successor takes the node's place. */
  lemma MapSuccessorMoves<V>(l: map<int, V>, r: map<int, V>, rest: map<int, V>, k: int, v: V, sk: int, sv: V)
    requires k !in l && k !in r && sk !in rest
    requires r == rest[sk := sv]
    ensures (l + map[sk := sv]) + rest == ((l + map[k := v]) + r) - {k}
  {
  }

  /** Where a key of a node's map comes from. */
  lemma NodeMapLookup<V>(t: Tree<V>, x: int)
    requires t.Node?
    ensures x in ToMap(t) <==> x in ToMap(t.left) || x == t.key || x in ToMap(t.right)
    ensures x in ToMap(t.right) ==> ToMap(t)[x] == ToMap(t.right)[x]
    ensures x !in ToMap(t.right) && x == t.key ==> ToMap(t)[x] == t.val
    ensures x !in ToMap(t.right) && x != t.key && x in ToMap(t.left) ==> ToMap(t)[x] == ToMap(t.left)[x]
  {
  }

  lemma {:induction false} SameShapeRefl<V>(t: Tree<V>)
    ensures SameShape(t, t)
  {
    match t
    case Leaf =>
    case Node(l, _, _, _, r) =>
      SameShapeRefl(l);
      SameShapeRefl(r);
  }

  lemma {:induction false} SameShapeKeepsKeys<V>(a: Tree<V>, b: Tree<V>)
    requires SameShape(a, b)
    ensures Keys(a) == Keys(b)
    ensures Ordered(a) <==> Ordered(b)
    ensures HeightsOk(a) <==> HeightsOk(b)
    ensures Balanced(a) <==> Balanced(b)
  {
    match a
    case Leaf =>
    case Node(al, _, _, _, ar) =>
      SameShapeKeepsKeys(al, b.left);
      SameShapeKeepsKeys(ar, b.right);
  }

  /** In an ordered tree each child's map is the node's map restricted to that child's keys. */
  lemma ChildMaps<V>(t: Tree<V>)
    requires t.Node? && Ordered(t)
    ensures forall x :: x in ToMap(t.left) ==> x in ToMap(t) && ToMap(t)[x] == ToMap(t.left)[x]
    ensures forall x :: x in ToMap(t.right) ==> x in ToMap(t) && ToMap(t)[x] == ToMap(t.right)[x]
    ensures t.key in ToMap(t) && ToMap(t)[t.key] == t.val
  {
    KeysAreMapKeys(t.left);
    KeysAreMapKeys(t.right);
    forall x | x in ToMap(t.left)
      ensures x in ToMap(t) && ToMap(t)[x] == ToMap(t.left)[x]
    {
      assert x < t.key && x !in ToMap(t.right);
    }
    assert t.key !in ToMap(t.right);
  }

  /** Two maps with the same keys that both agree with one bigger map are equal. */
  lemma SubMapsAgree<V>(m1: map<int, V>, m2: map<int, V>, m: map<int, V>)
    requires m1.Keys == m2.Keys
    requires forall x :: x in m1 ==> x in m && m[x] == m1[x]
    requires forall x :: x in m2 ==> x in m && m[x] == m2[x]
    ensures m1 == m2
  {
    forall x | x in m1
      ensures x in m2 && m1[x] == m2[x]
    {
      assert x in m2.Keys;
    }
  }

  /** A shape with its keys, plus the map, pins down the whole ordered tree. */
  lemma {:induction false} SameShapeSameMap<V>(a: Tree<V>, b: Tree<V>)
    requires SameShape(a, b) && Ordered(a) && ToMap(a) == ToMap(b)
    ensures a == b
  {
    SameShapeKeepsKeys(a, b);
    if a.Node? {
      SameShapeKeepsKeys(a.left, b.left);
      SameShapeKeepsKeys(a.right, b.right);
      KeysAreMapKeys(a.left);
      KeysAreMapKeys(a.right);
      KeysAreMapKeys(b.left);
      KeysAreMapKeys(b.right);
      ChildMaps(a);
      ChildMaps(b);
      SubMapsAgree(ToMap(a.left), ToMap(b.left), ToMap(a));
      SubMapsAgree(ToMap(a.right), ToMap(b.right), ToMap(a));
      SameShapeSameMap(a.left, b.left);
      SameShapeSameMap(a.right, b.right);
    }
  }
}
