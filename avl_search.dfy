/**
 * The lookups of lab_6/src/avl_tree.py: `search` and `_min_value_node` are loops down the tree,
 * proved against Find and Leftmost, and under the search-tree order Find reaches a node exactly
 * when the key is stored. Update is the value replacement the hash table relies on.
 */
module AvlSearch {
  import opened KeyOrder
  import opened AvlTrees
  import opened AvlOrder

  /**
   * The node `search` stops at: keys below a node's go left, all others right, and the walk ends
   * at a node with the key or below a leaf.
   */
  function Find<V>(t: Tree<V>, key: string): Tree<V>
  {
    if t.Nil? || key == t.info.key then t
    else if KeyLess(key, t.info.key) then Find(t.left, key)
    else Find(t.right, key)
  }

  /** Under order, Find reaches a node exactly when the key is stored, and that node holds its record. */
  lemma {:induction false} FindContents<V>(t: Tree<V>, key: string)
    requires Ordered(t)
    ensures Find(t, key).Node? <==> key in Contents(t)
    ensures Find(t, key).Node? ==> Find(t, key).info.key == key && Find(t, key).info.value == Contents(t)[key]
  {
    if t.Node? {
      OrderedParts(t);
      NodeContents(t);
      ContentsKeys(t.left);
      ContentsKeys(t.right);
      if key == t.info.key {
        RootAlone(t);
      } else if KeyLess(key, t.info.key) {
        FindContents(t.left, key);
        KeyLessAsymmetric(key, t.info.key);
        assert key !in Keys(t.right);
      } else {
        KeyLessTotal(key, t.info.key);
        FindContents(t.right, key);
        KeyLessAsymmetric(t.info.key, key);
        assert key !in Keys(t.left);
      }
    }
  }

  /**
   * `search(key)`: the loop walks from the root to Find's node, so under order it returns a node
   * with the key and its stored value exactly when the key is stored.
   */
  method Search<V>(root: Tree<V>, key: string) returns (x: Tree<V>)
    ensures x == Find(root, key)
    ensures Ordered(root) ==> (x.Node? <==> key in Contents(root))
    ensures Ordered(root) && x.Node? ==> x.info.key == key && x.info.value == Contents(root)[key]
  {
    x := root;
    while x.Node? && key != x.info.key
      invariant Find(x, key) == Find(root, key)
      decreases x
    {
      if KeyLess(key, x.info.key) {
        x := x.left;
      } else {
        x := x.right;
      }
    }
    if Ordered(root) {
      FindContents(root, key);
    }
  }

  /**
   * `_min_value_node(node)`: the loop follows left children to Leftmost's node, whose key is
   * under order the least the tree stores.
   */
  method MinValueNode<V>(node: Tree<V>) returns (current: Tree<V>)
    ensures current == Leftmost(node)
    ensures node.Node? && Ordered(node) ==> current.info.key in Contents(node)
    ensures node.Node? && Ordered(node) ==>
      forall k | k in Keys(node) && k != current.info.key :: KeyLess(current.info.key, k)
  {
    current := node;
    while current.Node? && current.left.Node?
      invariant Leftmost(current) == Leftmost(node)
      decreases current
    {
      current := current.left;
    }
    if node.Node? && Ordered(node) {
      LeftmostLeast(node);
    }
  }

  /**
   * The value replacement behind the hash table's `update`: the node Find reaches with the key
   * takes the new record and nothing else changes, so heights, balance and keys stay.
   */
  function Update<V>(t: Tree<V>, info: HashInfo<V>): (r: Tree<V>)
    ensures Height(r) == Height(t) && Keys(r) == Keys(t)
    ensures HeightsOk(t) ==> HeightsOk(r)
    ensures Balanced(t) ==> Balanced(r)
  {
    if t.Nil? then t
    else if info.key == t.info.key then Node(info, t.left, t.right, t.height)
    else if KeyLess(info.key, t.info.key) then Node(t.info, Update(t.left, info), t.right, t.height)
    else Node(t.info, t.left, Update(t.right, info), t.height)
  }

  /** The stored records after the value of key, if stored, became value. */
  function Replaced<V>(m: map<string, V>, key: string, value: V): map<string, V>
  {
    if key in m then m[key := value] else m
  }

  /** A node whose left subtree had the value of a key below the node's replaced. */
  lemma ReplacedLeft<V>(t: Tree<V>, l2: Tree<V>, key: string, value: V)
    requires t.Node? && Ordered(t) && Ordered(l2) && KeyLess(key, t.info.key)
    requires Keys(l2) == Keys(t.left) && Contents(l2) == Replaced(Contents(t.left), key, value)
    ensures Ordered(Node(t.info, l2, t.right, t.height))
    ensures Contents(Node(t.info, l2, t.right, t.height)) == Replaced(Contents(t), key, value)
  {
    var r := Node(t.info, l2, t.right, t.height);
    OrderedParts(t);
    NodeOrdered(r);
    NodeContents(t);
    NodeContents(r);
    ContentsKeys(t.left);
    ContentsKeys(t.right);
    KeyLessAsymmetric(key, t.info.key);
    KeyLessIrreflexive(key);
    assert key !in Keys(t.right);
    if key in Keys(t.left) {
      StoreUnder(Contents(t.left), map[t.info.key := t.info.value], Contents(t.right), key, value);
    }
  }

  /** A node whose right subtree had the value of a key above the node's replaced. */
  lemma ReplacedRight<V>(t: Tree<V>, r2: Tree<V>, key: string, value: V)
    requires t.Node? && Ordered(t) && Ordered(r2) && KeyLess(t.info.key, key)
    requires Keys(r2) == Keys(t.right) && Contents(r2) == Replaced(Contents(t.right), key, value)
    ensures Ordered(Node(t.info, t.left, r2, t.height))
    ensures Contents(Node(t.info, t.left, r2, t.height)) == Replaced(Contents(t), key, value)
  {
    var r := Node(t.info, t.left, r2, t.height);
    OrderedParts(t);
    NodeOrdered(r);
    NodeContents(t);
    NodeContents(r);
    ContentsKeys(t.left);
    ContentsKeys(t.right);
    KeyLessAsymmetric(t.info.key, key);
    KeyLessIrreflexive(key);
    assert key !in Keys(t.left);
    if key in Keys(t.right) {
      StoreLast(Contents(t.left), map[t.info.key := t.info.value], Contents(t.right), key, value);
    }
  }

  /** A node whose own record was replaced by one with the same key. */
  lemma ReplacedRoot<V>(t: Tree<V>, info: HashInfo<V>)
    requires t.Node? && Ordered(t) && info.key == t.info.key
    ensures Ordered(Node(info, t.left, t.right, t.height))
    ensures Contents(Node(info, t.left, t.right, t.height)) == Replaced(Contents(t), info.key, info.value)
  {
    var r := Node(info, t.left, t.right, t.height);
    OrderedParts(t);
    RootAlone(t);
    NodeOrdered(r);
    NodeContents(t);
    NodeContents(r);
  }

  /** Update keeps the order and replaces the stored value of a stored key; it stores nothing new. */
  lemma {:induction false} UpdateOrdered<V>(t: Tree<V>, info: HashInfo<V>)
    requires Ordered(t)
    ensures Ordered(Update(t, info))
    ensures Contents(Update(t, info)) == Replaced(Contents(t), info.key, info.value)
  {
    if t.Node? {
      var key := info.key;
      OrderedParts(t);
      if key == t.info.key {
        ReplacedRoot(t, info);
      } else if KeyLess(key, t.info.key) {
        UpdateOrdered(t.left, info);
        ReplacedLeft(t, Update(t.left, info), key, info.value);
      } else {
        KeyLessTotal(key, t.info.key);
        UpdateOrdered(t.right, info);
        ReplacedRight(t, Update(t.right, info), key, info.value);
      }
    }
  }
}
