/**
 * What rebuilding a node over changed subtrees does to the abstractions of
 * module Trees.  Every structural edit of both trees (rotations, insertion,
 * removal) is proved against these node-level facts.
 */
module TreeContents {
  import opened Trees

  /** Everything a rotation must not change: items, keys, map and ordering. */
  ghost predicate SameContents<V>(a: Tree<V>, b: Tree<V>) {
    Items(a) == Items(b) && Keys(a) == Keys(b) && ToMap(a) == ToMap(b) && (Ordered(a) <==> Ordered(b))
  }

  lemma MapUnionAssoc<V>(a: map<int, V>, b: map<int, V>, c: map<int, V>)
    ensures a + (b + c) == (a + b) + c
  {
  }

  lemma SameContentsTrans<V>(a: Tree<V>, b: Tree<V>, c: Tree<V>)
    requires SameContents(a, b) && SameContents(b, c)
    ensures SameContents(a, c)
  {
  }

  /** Replacing a child by one with the same contents keeps the contents of the parent. */
  lemma SameContentsUnder<V>(a: Tree<V>, b: Tree<V>, l: Tree<V>, k: int, v: V, h: int, h': int, r: Tree<V>)
    requires SameContents(a, b)
    ensures SameContents(Node(a, k, v, h, r), Node(b, k, v, h', r))
    ensures SameContents(Node(l, k, v, h, a), Node(l, k, v, h', b))
  {
  }

  /**
   * The one rearrangement every rotation performs: ((a x b) y c) and
   * (a x (b y c)) hold the same items in the same order, whatever heights
   * are cached.
   */
  lemma RotationKeepsContents<V>(a: Tree<V>, x: int, xv: V, b: Tree<V>, y: int, yv: V, c: Tree<V>,
                                 h1: int, h2: int, h3: int, h4: int)
    ensures SameContents(Node(Node(a, x, xv, h1, b), y, yv, h2, c), Node(a, x, xv, h3, Node(b, y, yv, h4, c)))
  {
    var lo := Node(Node(a, x, xv, h1, b), y, yv, h2, c);
    var hi := Node(a, x, xv, h3, Node(b, y, yv, h4, c));
    MapUnionAssoc(ToMap(a) + map[x := xv], ToMap(b) + map[y := yv], ToMap(c));
    MapUnionAssoc(ToMap(a) + map[x := xv], ToMap(b), map[y := yv]);
    if Ordered(lo) {
      assert x in Keys(lo.left) && Ordered(lo.left);
      assert x < y;
      assert AllAbove(hi.right, x) by {
        forall k | k in Keys(hi.right) ensures x < k {
          if k in Keys(c) {
            assert y < k;
          } else if k in Keys(b) {
            assert AllAbove(b, x);
          }
        }
      }
    }
    if Ordered(hi) {
      assert y in Keys(hi.right) && Ordered(hi.right);
      assert x < y;
      assert AllBelow(lo.left, y) by {
        forall k | k in Keys(lo.left) ensures k < y {
          if k in Keys(a) {
            assert k < x;
          } else if k in Keys(b) {
            assert AllBelow(b, y);
          }
        }
      }
    }
  }

  /**
   * The node step of an insertion whose key went right: w is
   * anything with the contents of the node rebuilt over the new right
   * subtree r'.
   */
  lemma InsertedRight<V>(t: Tree<V>, w: Tree<V>, k: int, v: V, r': Tree<V>)
    requires t.Node? && k > t.key
    requires SameContents(w, Node(t.left, t.key, t.val, t.height, r'))
    requires Keys(r') == Keys(t.right) + {k}
    requires Ordered(t.right) ==> Ordered(r') && ToMap(r') == ToMap(t.right)[k := v]
    ensures Keys(w) == Keys(t) + {k}
    ensures Ordered(t) ==> Ordered(w) && ToMap(w) == ToMap(t)[k := v]
  {
    var Node(l, key, val, h, r) := t;
    MapUpdateUnderRight(ToMap(l) + map[key := val], ToMap(r), k, v);
  }

  /** The node step of an insertion whose key went left. */
  lemma InsertedLeft<V>(t: Tree<V>, w: Tree<V>, k: int, v: V, l': Tree<V>)
    requires t.Node? && k < t.key
    requires SameContents(w, Node(l', t.key, t.val, t.height, t.right))
    requires Keys(l') == Keys(t.left) + {k}
    requires Ordered(t.left) ==> Ordered(l') && ToMap(l') == ToMap(t.left)[k := v]
    ensures Keys(w) == Keys(t) + {k}
    ensures Ordered(t) ==> Ordered(w) && ToMap(w) == ToMap(t)[k := v]
  {
    var Node(l, key, val, h, r) := t;
    if Ordered(t) {
      KeysAreMapKeys(r);
      MapUpdateUnderLeft(ToMap(l), map[key := val], k, v);
      MapUpdateUnderLeft(ToMap(l) + map[key := val], ToMap(r), k, v);
    }
  }

  /** The node step of a removal whose search went left. */
  lemma RemovedLeft<V>(t: Tree<V>, w: Tree<V>, k: int, l': Tree<V>)
    requires t.Node? && Ordered(t) && k < t.key
    requires SameContents(w, Node(l', t.key, t.val, t.height, t.right))
    requires Ordered(l') && ToMap(l') == ToMap(t.left) - {k} && Keys(l') == Keys(t.left) - {k}
    ensures Ordered(w) && ToMap(w) == ToMap(t) - {k} && Keys(w) == Keys(t) - {k}
  {
    RemovedLeftOrder(t, k, l');
    RemovedLeftMap(t, k, l');
  }

  lemma RemovedLeftOrder<V>(t: Tree<V>, k: int, l': Tree<V>)
    requires t.Node? && Ordered(t) && k < t.key
    requires Ordered(l') && Keys(l') == Keys(t.left) - {k}
    ensures var z := Node(l', t.key, t.val, t.height, t.right);
            Ordered(z) && Keys(z) == Keys(t) - {k}
  {
    var Node(l, key, val, h, r) := t;
    assert AllBelow(l', key) by {
      forall x | x in Keys(l') ensures x < key {
        assert x in Keys(l);
      }
    }
    assert k !in Keys(r);
  }

  lemma RemovedLeftMap<V>(t: Tree<V>, k: int, l': Tree<V>)
    requires t.Node? && Ordered(t) && k < t.key
    requires ToMap(l') == ToMap(t.left) - {k}
    ensures ToMap(Node(l', t.key, t.val, t.height, t.right)) == ToMap(t) - {k}
  {
    var Node(l, key, val, h, r) := t;
    KeysAreMapKeys(r);
    assert k !in Keys(r);
    MapRemoveUnderLeft(ToMap(l), map[key := val], k);
    MapRemoveUnderLeft(ToMap(l) + map[key := val], ToMap(r), k);
  }

  /** The node step of a removal whose search went right. */
  lemma RemovedRight<V>(t: Tree<V>, w: Tree<V>, k: int, r': Tree<V>)
    requires t.Node? && Ordered(t) && k > t.key
    requires SameContents(w, Node(t.left, t.key, t.val, t.height, r'))
    requires Ordered(r') && ToMap(r') == ToMap(t.right) - {k} && Keys(r') == Keys(t.right) - {k}
    ensures Ordered(w) && ToMap(w) == ToMap(t) - {k} && Keys(w) == Keys(t) - {k}
  {
    RemovedRightOrder(t, k, r');
    RemovedRightMap(t, k, r');
  }

  lemma RemovedRightOrder<V>(t: Tree<V>, k: int, r': Tree<V>)
    requires t.Node? && Ordered(t) && k > t.key
    requires Ordered(r') && Keys(r') == Keys(t.right) - {k}
    ensures var z := Node(t.left, t.key, t.val, t.height, r');
            Ordered(z) && Keys(z) == Keys(t) - {k}
  {
    var Node(l, key, val, h, r) := t;
    assert AllAbove(r', key) by {
      forall x | x in Keys(r') ensures key < x {
        assert x in Keys(r);
      }
    }
    assert k !in Keys(l);
  }

  lemma RemovedRightMap<V>(t: Tree<V>, k: int, r': Tree<V>)
    requires t.Node? && Ordered(t) && k > t.key
    requires ToMap(r') == ToMap(t.right) - {k}
    ensures ToMap(Node(t.left, t.key, t.val, t.height, r')) == ToMap(t) - {k}
  {
    var Node(l, key, val, h, r) := t;
    KeysAreMapKeys(l);
    assert k !in Keys(l);
    MapRemoveUnderRight(ToMap(l) + map[key := val], ToMap(r), k);
  }

  /**
   * The node step of a removal at the key itself, when the node has two
   * children: its successor (sk, sv) moves in and rest is what is left of
   * the right subtree.
   */
  lemma RemovedBySuccessor<V>(t: Tree<V>, w: Tree<V>, sk: int, sv: V, rest: Tree<V>)
    requires t.Node? && Ordered(t)
    requires SameContents(w, Node(t.left, sk, sv, t.height, rest))
    requires Ordered(rest) && Keys(t.right) == Keys(rest) + {sk} && AllAbove(rest, sk)
    requires ToMap(t.right) == ToMap(rest)[sk := sv]
    ensures Ordered(w) && ToMap(w) == ToMap(t) - {t.key} && Keys(w) == Keys(t) - {t.key}
  {
    SuccessorOrder(t, sk, sv, rest);
    SuccessorMap(t, sk, sv, rest);
  }

  lemma SuccessorOrder<V>(t: Tree<V>, sk: int, sv: V, rest: Tree<V>)
    requires t.Node? && Ordered(t)
    requires Ordered(rest) && Keys(t.right) == Keys(rest) + {sk} && AllAbove(rest, sk)
    ensures var z := Node(t.left, sk, sv, t.height, rest);
            Ordered(z) && Keys(z) == Keys(t) - {t.key}
  {
    var Node(l, key, val, h, r) := t;
    assert sk in Keys(r);
    assert AllBelow(l, sk) by {
      forall x | x in Keys(l) ensures x < sk {
        assert x < key;
      }
    }
    assert key !in Keys(l) && key !in Keys(r);
  }

  lemma SuccessorMap<V>(t: Tree<V>, sk: int, sv: V, rest: Tree<V>)
    requires t.Node? && Ordered(t)
    requires Keys(t.right) == Keys(rest) + {sk} && AllAbove(rest, sk)
    requires ToMap(t.right) == ToMap(rest)[sk := sv]
    ensures ToMap(Node(t.left, sk, sv, t.height, rest)) == ToMap(t) - {t.key}
  {
    var Node(l, key, val, h, r) := t;
    KeysAreMapKeys(l);
    KeysAreMapKeys(r);
    KeysAreMapKeys(rest);
    assert key !in Keys(l) && key !in Keys(r);
    assert sk !in Keys(rest);
    MapSuccessorMoves(ToMap(l), ToMap(r), ToMap(rest), key, val, sk, sv);
  }


  /**
   * The node step of splicing out a subtree's minimum: the minimum came out
   * of the left child, so it is also the minimum of the whole node.
   */
  lemma DetachedBelow<V>(t: Tree<V>, w: Tree<V>, sk: int, sv: V, lrest: Tree<V>)
    requires t.Node? && Ordered(t)
    requires SameContents(w, Node(lrest, t.key, t.val, t.height, t.right))
    requires Ordered(lrest) && Keys(t.left) == Keys(lrest) + {sk} && AllAbove(lrest, sk)
    requires ToMap(t.left) == ToMap(lrest)[sk := sv]
    ensures Ordered(w) && Keys(t) == Keys(w) + {sk} && AllAbove(w, sk) && ToMap(t) == ToMap(w)[sk := sv]
  {
    DetachedOrder(t, sk, lrest);
    DetachedMap(t, sk, sv, lrest);
  }

  lemma DetachedOrder<V>(t: Tree<V>, sk: int, lrest: Tree<V>)
    requires t.Node? && Ordered(t)
    requires Ordered(lrest) && Keys(t.left) == Keys(lrest) + {sk} && AllAbove(lrest, sk)
    ensures var z := Node(lrest, t.key, t.val, t.height, t.right);
            Ordered(z) && Keys(t) == Keys(z) + {sk} && AllAbove(z, sk)
  {
    var Node(l, key, val, h, r) := t;
    var z := Node(lrest, key, val, h, r);
    assert sk in Keys(l) && sk < key;
    assert AllBelow(lrest, key) by {
      forall x | x in Keys(lrest) ensures x < key {
        assert x in Keys(l);
      }
    }
    assert AllAbove(z, sk) by {
      forall x | x in Keys(z) ensures sk < x {
        if x in Keys(r) {
          assert key < x;
        }
      }
    }
  }

  lemma DetachedMap<V>(t: Tree<V>, sk: int, sv: V, lrest: Tree<V>)
    requires t.Node? && Ordered(t)
    requires Keys(t.left) == Keys(lrest) + {sk}
    requires ToMap(t.left) == ToMap(lrest)[sk := sv]
    ensures ToMap(t) == ToMap(Node(lrest, t.key, t.val, t.height, t.right))[sk := sv]
  {
    var Node(l, key, val, h, r) := t;
    KeysAreMapKeys(r);
    assert sk in Keys(l) && sk < key;
    assert sk !in ToMap(r);
    MapUpdateUnderLeft(ToMap(lrest), map[key := val], sk, sv);
    MapUpdateUnderLeft(ToMap(lrest) + map[key := val], ToMap(r), sk, sv);
  }
}
