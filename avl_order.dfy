/**
 * The search-tree side of lab_6/src/avl_tree.py. A tree is ordered when its in-order walk visits
 * strictly increasing keys, and its contents are the records of that walk. Under that order
 * `search` finds exactly the stored keys, the rotations keep the stored records, `insert` of a new
 * key adds its record and `delete` removes the key's record.
 */
module AvlOrder {
  import opened Wrappers
  import opened KeyOrder
  import opened AvlTrees

  predicate SortedKeys<V>(s: seq<HashInfo<V>>)
  {
    forall i, j | 0 <= i < j < |s| :: KeyLess(s[i].key, s[j].key)
  }

  /** The in-order walk visits strictly increasing keys. */
  predicate Ordered<V>(t: Tree<V>)
  {
    SortedKeys(InOrder(t))
  }

  /** The records of a sequence as a map, later records winning. */
  function ToMap<V>(s: seq<HashInfo<V>>): map<string, V>
  {
    if |s| == 0 then map[] else ToMap(s[..|s| - 1])[s[|s| - 1].key := s[|s| - 1].value]
  }

  /** The key-to-value records the tree stores. */
  function Contents<V>(t: Tree<V>): map<string, V>
  {
    ToMap(InOrder(t))
  }

  lemma {:induction false} ToMapAppend<V>(a: seq<HashInfo<V>>, b: seq<HashInfo<V>>)
    ensures ToMap(a + b) == ToMap(a) + ToMap(b)
    decreases |b|
  {
    if |b| > 0 {
      assert (a + b)[..|a + b| - 1] == a + b[..|b| - 1];
      ToMapAppend(a, b[..|b| - 1]);
    } else {
      assert a + b == a;
    }
  }

  /** A node's contents: its left subtree's, its own record, then its right subtree's. */
  lemma NodeContents<V>(t: Tree<V>)
    requires t.Node?
    ensures Contents(t) == Contents(t.left) + map[t.info.key := t.info.value] + Contents(t.right)
  {
    ToMapAppend(InOrder(t.left) + [t.info], InOrder(t.right));
    ToMapAppend(InOrder(t.left), [t.info]);
    assert ToMap([t.info]) == map[t.info.key := t.info.value] by {
      assert [t.info][..0] == [];
    }
  }

  lemma {:induction false} ContentsKeys<V>(t: Tree<V>)
    ensures Contents(t).Keys == Keys(t)
  {
    if t.Node? {
      NodeContents(t);
      ContentsKeys(t.left);
      ContentsKeys(t.right);
    }
  }

  /** Where a stored key sits in a sequence. */
  lemma {:induction false} KeyIndex<V>(s: seq<HashInfo<V>>, k: string) returns (i: nat)
    requires k in ToMap(s)
    ensures i < |s| && s[i].key == k
    decreases |s|
  {
    if s[|s| - 1].key == k {
      i := |s| - 1;
    } else {
      i := KeyIndex(s[..|s| - 1], k);
    }
  }

  /** Every key of a sequence is stored. */
  lemma {:induction false} IndexKey<V>(s: seq<HashInfo<V>>, i: nat)
    requires i < |s|
    ensures s[i].key in ToMap(s)
    decreases |s|
  {
    if i < |s| - 1 {
      IndexKey(s[..|s| - 1], i);
    }
  }

  /** The parts of an ordered node: ordered subtrees on the two sides of its key. */
  lemma OrderedParts<V>(t: Tree<V>)
    requires t.Node? && Ordered(t)
    ensures Ordered(t.left) && Ordered(t.right)
    ensures forall k | k in Keys(t.left) :: KeyLess(k, t.info.key)
    ensures forall k | k in Keys(t.right) :: KeyLess(t.info.key, k)
  {
    OrderedLeft(t);
    OrderedRight(t);
  }

  /** A part of a sorted sequence is sorted. */
  lemma SortedSlice<V>(s: seq<HashInfo<V>>, a: nat, b: nat)
    requires SortedKeys(s) && a <= b <= |s|
    ensures SortedKeys(s[a..b])
  {
    forall i, j | 0 <= i < j < b - a
      ensures KeyLess(s[a..b][i].key, s[a..b][j].key)
    {
      assert s[a..b][i] == s[a + i] && s[a..b][j] == s[a + j];
    }
  }

  lemma OrderedLeft<V>(t: Tree<V>)
    requires t.Node? && Ordered(t)
    ensures Ordered(t.left)
    ensures forall k | k in Keys(t.left) :: KeyLess(k, t.info.key)
  {
    var l := InOrder(t.left);
    var w := InOrder(t);
    assert w[..|l|] == l;
    SortedSlice(w, 0, |l|);
    assert w[|l|] == t.info;
    ContentsKeys(t.left);
    forall k | k in Keys(t.left)
      ensures KeyLess(k, t.info.key)
    {
      var i := KeyIndex(l, k);
      assert w[i] == l[i];
    }
  }

  lemma OrderedRight<V>(t: Tree<V>)
    requires t.Node? && Ordered(t)
    ensures Ordered(t.right)
    ensures forall k | k in Keys(t.right) :: KeyLess(t.info.key, k)
  {
    var l := InOrder(t.left);
    var r := InOrder(t.right);
    var w := InOrder(t);
    assert w[|l| + 1..] == r;
    SortedSlice(w, |l| + 1, |w|);
    assert w[|l|] == t.info;
    ContentsKeys(t.right);
    forall k | k in Keys(t.right)
      ensures KeyLess(t.info.key, k)
    {
      var i := KeyIndex(r, k);
      var j := |l| + 1 + i;
      assert w[j] == r[i];
    }
  }

  /** The converse: ordered subtrees on the two sides of the key make an ordered node. */
  lemma NodeOrdered<V>(t: Tree<V>)
    requires t.Node? && Ordered(t.left) && Ordered(t.right)
    requires forall k | k in Keys(t.left) :: KeyLess(k, t.info.key)
    requires forall k | k in Keys(t.right) :: KeyLess(t.info.key, k)
    ensures Ordered(t)
  {
    var l := InOrder(t.left);
    var r := InOrder(t.right);
    var w := InOrder(t);
    ContentsKeys(t.left);
    ContentsKeys(t.right);
    forall i, j | 0 <= i < j < |w|
      ensures KeyLess(w[i].key, w[j].key)
    {
      if i < |l| {
        assert w[i] == l[i];
        IndexKey(l, i);
      }
      if j > |l| {
        assert w[j] == r[j - |l| - 1];
        IndexKey(r, j - |l| - 1);
      }
      if i < |l| && j > |l| {
        KeyLessTransitive(w[i].key, t.info.key, w[j].key);
      }
      if i > |l| {
        assert w[i] == r[i - |l| - 1];
        assert w[j] == r[j - |l| - 1];
      }
    }
  }

  /** In a sorted sequence every record is the one stored under its key. */
  lemma {:induction false} SortedLookup<V>(s: seq<HashInfo<V>>, i: nat)
    requires SortedKeys(s) && i < |s|
    ensures s[i].key in ToMap(s) && ToMap(s)[s[i].key] == s[i].value
    decreases |s|
  {
    if i < |s| - 1 {
      SortedSlice(s, 0, |s| - 1);
      assert s[..|s| - 1][i] == s[i];
      SortedLookup(s[..|s| - 1], i);
      if s[i].key == s[|s| - 1].key {
        KeyLessIrreflexive(s[i].key);
      }
    }
  }

  /** The two rebalancing steps keep the in-order sequence. */
  lemma RebalanceInsertedInOrder<V>(t: Tree<V>, key: string)
    requires InsertRotatable(t, key)
    ensures InOrder(RebalanceInserted(t, key)) == InOrder(t)
  {
  }

  lemma RebalanceDeletedInOrder<V>(t: Tree<V>)
    requires DeleteRotatable(t)
    ensures InOrder(RebalanceDeleted(t)) == InOrder(t)
  {
  }

  /** Storing a record in a map and then adding a map without its key is storing it last. */
  lemma StoreUnder<V>(a: map<string, V>, m: map<string, V>, b: map<string, V>, key: string, value: V)
    requires key !in m && key !in b
    ensures a[key := value] + m + b == (a + m + b)[key := value]
  {
  }

  /** Storing a record in the last of three maps is storing it in their union. */
  lemma StoreLast<V>(a: map<string, V>, m: map<string, V>, b: map<string, V>, key: string, value: V)
    ensures a + m + b[key := value] == (a + m + b)[key := value]
  {
  }

  /** A node whose left subtree took in a new key below the node's key. */
  lemma GrownLeft<V>(info: HashInfo<V>, l: Tree<V>, r: Tree<V>, l2: Tree<V>, key: string, value: V)
    requires Ordered(Join(info, l, r)) && Ordered(l2) && KeyLess(key, info.key)
    requires Keys(l2) == Keys(l) + {key} && Contents(l2) == Contents(l)[key := value]
    ensures Ordered(Join(info, l2, r))
    ensures Contents(Join(info, l2, r)) == Contents(Join(info, l, r))[key := value]
  {
    var t := Join(info, l, r);
    OrderedParts(t);
    NodeOrdered(Join(info, l2, r));
    NodeContents(t);
    NodeContents(Join(info, l2, r));
    ContentsKeys(r);
    KeyLessAsymmetric(key, info.key);
    KeyLessIrreflexive(key);
    assert key !in Keys(r);
    StoreUnder(Contents(l), map[info.key := info.value], Contents(r), key, value);
  }

  /** A node whose right subtree took in a new key above the node's key. */
  lemma GrownRight<V>(info: HashInfo<V>, l: Tree<V>, r: Tree<V>, r2: Tree<V>, key: string, value: V)
    requires Ordered(Join(info, l, r)) && Ordered(r2) && KeyLess(info.key, key)
    requires Keys(r2) == Keys(r) + {key} && Contents(r2) == Contents(r)[key := value]
    ensures Ordered(Join(info, l, r2))
    ensures Contents(Join(info, l, r2)) == Contents(Join(info, l, r))[key := value]
  {
    var t := Join(info, l, r);
    OrderedParts(t);
    NodeOrdered(Join(info, l, r2));
    NodeContents(t);
    NodeContents(Join(info, l, r2));
    StoreLast(Contents(l), map[info.key := info.value], Contents(r), key, value);
  }

  /**
   * `insert` of a key the tree does not hold keeps the tree ordered and stores the new record
   * beside the old ones.
   */
  lemma {:induction false} InsertOrdered<V>(root: Tree<V>, info: HashInfo<V>)
    requires Avl(root) && Ordered(root) && info.key !in Keys(root)
    ensures Ordered(Insert(root, info))
    ensures Contents(Insert(root, info)) == Contents(root)[info.key := info.value]
    decreases root
  {
    var key := info.key;
    if root.Nil? {
      NodeContents(Insert(root, info));
    } else {
      AvlParts(root);
      OrderedParts(root);
      if KeyLess(key, root.info.key) {
        var left := Insert(root.left, info);
        InsertOrdered(root.left, info);
        GrownLeft(root.info, root.left, root.right, left, key, info.value);
        InsertedLeft(root.info, root.left, root.right, left, key);
        RebalanceInsertedInOrder(Join(root.info, left, root.right), key);
      } else {
        KeyLessTotal(key, root.info.key);
        var right := Insert(root.right, info);
        InsertOrdered(root.right, info);
        GrownRight(root.info, root.left, root.right, right, key, info.value);
        InsertedRight(root.info, root.left, root.right, right, key);
        RebalanceInsertedInOrder(Join(root.info, root.left, right), key);
      }
    }
  }

  /** The leftmost record is the first of the in-order walk. */
  lemma {:induction false} LeftmostFirst<V>(t: Tree<V>)
    requires t.Node?
    ensures InOrder(t)[0] == Leftmost(t).info
  {
    if t.left.Node? {
      LeftmostFirst(t.left);
    }
  }

  /**
   * `_min_value_node` under order: the leftmost record is stored under its key and every other
   * key of the tree is greater.
   */
  lemma LeftmostLeast<V>(t: Tree<V>)
    requires t.Node? && Ordered(t)
    ensures Leftmost(t).info.key in Contents(t) && Contents(t)[Leftmost(t).info.key] == Leftmost(t).info.value
    ensures forall k | k in Keys(t) && k != Leftmost(t).info.key :: KeyLess(Leftmost(t).info.key, k)
  {
    var w := InOrder(t);
    LeftmostFirst(t);
    SortedLookup(w, 0);
    ContentsKeys(t);
    forall k | k in Keys(t) && k != Leftmost(t).info.key
      ensures KeyLess(Leftmost(t).info.key, k)
    {
      var i := KeyIndex(w, k);
    }
  }

  /** Removing a key from the first of three maps that do not hold it otherwise. */
  lemma RemoveUnder<V>(a: map<string, V>, m: map<string, V>, b: map<string, V>, key: string)
    requires key !in m && key !in b
    ensures (a - {key}) + m + b == (a + m + b) - {key}
  {
  }

  /** Removing a key from the last of three maps that do not hold it otherwise. */
  lemma RemoveLast<V>(a: map<string, V>, m: map<string, V>, b: map<string, V>, key: string)
    requires key !in a && key !in m
    ensures a + m + (b - {key}) == (a + m + b) - {key}
  {
  }

  /** Moving the record of key2 out of the last map into the middle in place of key's. */
  lemma MoveToMiddle<V>(a: map<string, V>, b: map<string, V>, key: string, value: V, key2: string)
    requires key !in a && key !in b && key2 !in a && key2 in b
    ensures a + map[key2 := b[key2]] + (b - {key2}) == (a + map[key := value] + b) - {key}
  {
  }

  /** A node whose left subtree lost a key below the node's key. */
  lemma ShrunkLeft<V>(info: HashInfo<V>, l: Tree<V>, r: Tree<V>, l2: Tree<V>, key: string)
    requires Ordered(Join(info, l, r)) && Ordered(l2) && KeyLess(key, info.key)
    requires Keys(l2) <= Keys(l) && Contents(l2) == Contents(l) - {key}
    ensures Ordered(Join(info, l2, r))
    ensures Contents(Join(info, l2, r)) == Contents(Join(info, l, r)) - {key}
  {
    var t := Join(info, l, r);
    OrderedParts(t);
    NodeOrdered(Join(info, l2, r));
    NodeContents(t);
    NodeContents(Join(info, l2, r));
    ContentsKeys(r);
    KeyLessAsymmetric(key, info.key);
    KeyLessIrreflexive(key);
    assert key !in Keys(r);
    RemoveUnder(Contents(l), map[info.key := info.value], Contents(r), key);
  }

  /** A node whose right subtree lost a key above the node's key. */
  lemma ShrunkRight<V>(info: HashInfo<V>, l: Tree<V>, r: Tree<V>, r2: Tree<V>, key: string)
    requires Ordered(Join(info, l, r)) && Ordered(r2) && KeyLess(info.key, key)
    requires Keys(r2) <= Keys(r) && Contents(r2) == Contents(r) - {key}
    ensures Ordered(Join(info, l, r2))
    ensures Contents(Join(info, l, r2)) == Contents(Join(info, l, r)) - {key}
  {
    var t := Join(info, l, r);
    OrderedParts(t);
    NodeOrdered(Join(info, l, r2));
    NodeContents(t);
    NodeContents(Join(info, l, r2));
    ContentsKeys(l);
    KeyLessAsymmetric(info.key, key);
    KeyLessIrreflexive(key);
    assert key !in Keys(l);
    RemoveLast(Contents(l), map[info.key := info.value], Contents(r), key);
  }

  /** The key of an ordered node is stored in neither of its subtrees. */
  lemma RootAlone<V>(t: Tree<V>)
    requires t.Node? && Ordered(t)
    ensures t.info.key !in Contents(t.left) && t.info.key !in Contents(t.right)
    ensures Contents(t) - {t.info.key} == Contents(t.left) + Contents(t.right)
  {
    OrderedParts(t);
    NodeContents(t);
    ContentsKeys(t.left);
    ContentsKeys(t.right);
    KeyLessIrreflexive(t.info.key);
  }

  /**
   * A node with two children whose record was replaced by its in-order successor's, which was
   * then deleted from the right subtree r2.
   */
  lemma SuccessorMoved<V>(t: Tree<V>, r2: Tree<V>)
    requires t.Node? && t.right.Node? && Ordered(t) && Ordered(r2)
    requires Keys(r2) <= Keys(t.right) && Contents(r2) == Contents(t.right) - {Leftmost(t.right).info.key}
    ensures Ordered(Join(Leftmost(t.right).info, t.left, r2))
    ensures Contents(Join(Leftmost(t.right).info, t.left, r2)) == Contents(t) - {t.info.key}
  {
    var s := Leftmost(t.right).info;
    OrderedParts(t);
    LeftmostLeast(t.right);
    RootAlone(t);
    ContentsKeys(t.left);
    ContentsKeys(r2);
    forall k | k in Keys(t.left)
      ensures KeyLess(k, s.key)
    {
      KeyLessTransitive(k, t.info.key, s.key);
    }
    NodeOrdered(Join(s, t.left, r2));
    NodeContents(t);
    NodeContents(Join(s, t.left, r2));
    KeyLessAsymmetric(t.info.key, s.key);
    MoveToMiddle(Contents(t.left), Contents(t.right), t.info.key, t.info.value, s.key);
  }

  /** `delete` keeps the tree ordered and removes exactly the key's record. */
  lemma {:induction false} DeleteOrdered<V>(root: Tree<V>, key: string)
    requires Avl(root) && Ordered(root)
    ensures Ordered(Delete(root, key))
    ensures Contents(Delete(root, key)) == Contents(root) - {key}
    decreases root
  {
    if root.Node? {
      AvlParts(root);
      OrderedParts(root);
      if KeyLess(key, root.info.key) {
        var left := Delete(root.left, key);
        DeleteOrdered(root.left, key);
        ShrunkLeft(root.info, root.left, root.right, left, key);
        DeletedLeft(root.info, root.left, root.right, left);
        RebalanceDeletedInOrder(Join(root.info, left, root.right));
      } else if KeyLess(root.info.key, key) {
        var right := Delete(root.right, key);
        DeleteOrdered(root.right, key);
        ShrunkRight(root.info, root.left, root.right, right, key);
        DeletedRight(root.info, root.left, root.right, right);
        RebalanceDeletedInOrder(Join(root.info, root.left, right));
      } else {
        KeyLessTotal(key, root.info.key);
        RootAlone(root);
        if root.left.Node? && root.right.Node? {
          var successor := Leftmost(root.right).info;
          var right := Delete(root.right, successor.key);
          DeleteOrdered(root.right, successor.key);
          SuccessorMoved(root, right);
          DeletedRight(successor, root.left, root.right, right);
          RebalanceDeletedInOrder(Join(successor, root.left, right));
        }
      }
    }
  }
}
