/**
 * The AVL tree of lab_6/src/avl_tree.py, on values: a node keeps its key/value record, its two
 * subtrees and the height it was last given. `insert` and `delete` rebuild the path they walk and
 * rebalance it with the two rotations; this module proves that they keep every stored height
 * right and every balance factor within one.
 */
module AvlTrees {
  import opened Wrappers
  import opened KeyOrder

  /** `HashInfo` */
  datatype HashInfo<V> = HashInfo(key: string, value: V)

  /** A tree: `None` or a `Node` with its `hash_info`, `left`, `right` and `height` fields. */
  datatype Tree<V> = Nil | Node(info: HashInfo<V>, left: Tree<V>, right: Tree<V>, height: int)

  function Max(a: int, b: int): int { if a < b then b else a }

  /** `_height` */
  function Height<V>(t: Tree<V>): int
  {
    if t.Nil? then 0 else t.height
  }

  /** `_balance_factor` */
  function BalanceFactor<V>(t: Tree<V>): int
  {
    if t.Nil? then 0 else Height(t.left) - Height(t.right)
  }

  /** A node with its height recomputed from its children, as `_update_height` and the rotations do. */
  function Join<V>(info: HashInfo<V>, left: Tree<V>, right: Tree<V>): Tree<V>
  {
    Node(info, left, right, 1 + Max(Height(left), Height(right)))
  }

  /** The records in key order, as an in-order walk visits them. */
  function InOrder<V>(t: Tree<V>): seq<HashInfo<V>>
  {
    if t.Nil? then [] else InOrder(t.left) + [t.info] + InOrder(t.right)
  }

  function Keys<V>(t: Tree<V>): set<string>
  {
    if t.Nil? then {} else Keys(t.left) + {t.info.key} + Keys(t.right)
  }

  /** Every stored height is one more than the greater height of the node's children. */
  predicate HeightsOk<V>(t: Tree<V>)
  {
    t.Node? ==> HeightsOk(t.left) && HeightsOk(t.right) && t.height == 1 + Max(Height(t.left), Height(t.right))
  }

  /** Every balance factor is -1, 0 or 1. */
  predicate Balanced<V>(t: Tree<V>)
  {
    t.Node? ==> Balanced(t.left) && Balanced(t.right) && -1 <= BalanceFactor(t) <= 1
  }

  predicate Avl<V>(t: Tree<V>)
  {
    HeightsOk(t) && Balanced(t)
  }

  /** A tree with correct heights has a positive height exactly when it is a node. */
  lemma {:induction false} HeightPositive<V>(t: Tree<V>)
    requires HeightsOk(t)
    ensures Height(t) >= 0 && (t.Node? <==> Height(t) > 0)
  {
    if t.Node? {
      HeightPositive(t.left);
    }
  }

  /** `_rotate_right`: the left child becomes the root; the in-order sequence is unchanged. */
  function RotateRight<V>(y: Tree<V>): (r: Tree<V>)
    requires y.Node? && y.left.Node?
    ensures InOrder(r) == InOrder(y) && Keys(r) == Keys(y)
  {
    var x := y.left;
    Join(x.info, x.left, Join(y.info, x.right, y.right))
  }

  /** `_rotate_left`: the right child becomes the root; the in-order sequence is unchanged. */
  function RotateLeft<V>(x: Tree<V>): (r: Tree<V>)
    requires x.Node? && x.right.Node?
    ensures InOrder(r) == InOrder(x) && Keys(r) == Keys(x)
  {
    var y := x.right;
    Join(y.info, Join(x.info, x.left, y.left), y.right)
  }

  /** The parts of an AVL node. */
  lemma AvlParts<V>(t: Tree<V>)
    requires Avl(t) && t.Node?
    ensures Avl(t.left) && Avl(t.right) && -1 <= BalanceFactor(t) <= 1
    ensures Height(t) == 1 + Max(Height(t.left), Height(t.right))
    ensures Height(t.left) >= 0 && Height(t.right) >= 0
  {
    HeightPositive(t.left);
    HeightPositive(t.right);
  }

  /** Joining two AVL trees whose heights differ by at most one gives an AVL tree. */
  lemma JoinAvl<V>(info: HashInfo<V>, left: Tree<V>, right: Tree<V>)
    requires Avl(left) && Avl(right) && -1 <= Height(left) - Height(right) <= 1
    ensures Avl(Join(info, left, right))
  {
  }

  /**
   * A left-heavy node (its left child two higher than its right) whose left child is not
   * right-heavy becomes balanced by one right rotation, one lower unless that child was even.
   */
  lemma SingleRight<V>(y: Tree<V>)
    requires y.Node? && y.left.Node? && Avl(y.left) && Avl(y.right)
    requires Height(y.left) == Height(y.right) + 2 && BalanceFactor(y.left) >= 0
    ensures Avl(RotateRight(y))
    ensures Height(RotateRight(y)) == Height(y.left) + (if BalanceFactor(y.left) == 0 then 1 else 0)
  {
    HeightPositive(y.right);
    HeightPositive(y.left.left);
    HeightPositive(y.left.right);
  }

  /** The mirror of SingleRight. */
  lemma SingleLeft<V>(x: Tree<V>)
    requires x.Node? && x.right.Node? && Avl(x.left) && Avl(x.right)
    requires Height(x.right) == Height(x.left) + 2 && BalanceFactor(x.right) <= 0
    ensures Avl(RotateLeft(x))
    ensures Height(RotateLeft(x)) == Height(x.right) + (if BalanceFactor(x.right) == 0 then 1 else 0)
  {
    HeightPositive(x.left);
    HeightPositive(x.right.left);
    HeightPositive(x.right.right);
  }

  /** The first of the two rotations that balance a left-heavy node whose left child is right-heavy. */
  function LeftRight<V>(y: Tree<V>): Tree<V>
    requires y.Node? && y.left.Node? && y.left.right.Node?
  {
    Node(y.info, RotateLeft(y.left), y.right, y.height)
  }

  /** Its mirror. */
  function RightLeft<V>(x: Tree<V>): Tree<V>
    requires x.Node? && x.right.Node? && x.right.left.Node?
  {
    Node(x.info, x.left, RotateRight(x.right), x.height)
  }

  /**
   * A left-heavy node whose left child is right-heavy becomes balanced by a left rotation of
   * that child and a right rotation of the node, as high as that child was.
   */
  lemma DoubleRight<V>(y: Tree<V>)
    requires y.Node? && y.left.Node? && Avl(y.left) && Avl(y.right)
    requires Height(y.left) == Height(y.right) + 2 && BalanceFactor(y.left) == -1
    ensures y.left.right.Node?
    ensures Avl(RotateRight(LeftRight(y))) && Height(RotateRight(LeftRight(y))) == Height(y.left)
    ensures InOrder(RotateRight(LeftRight(y))) == InOrder(y) && Keys(RotateRight(LeftRight(y))) == Keys(y)
  {
    HeightPositive(y.right);
    var a := y.left;
    AvlParts(a);
    var b := a.right;
    AvlParts(b);
    var x1 := Join(a.info, a.left, b.left);
    var y1 := Join(y.info, b.right, y.right);
    JoinAvl(a.info, a.left, b.left);
    JoinAvl(y.info, b.right, y.right);
    JoinAvl(b.info, x1, y1);
    assert RotateRight(LeftRight(y)) == Join(b.info, x1, y1);
  }

  /** The mirror of DoubleRight. */
  lemma DoubleLeft<V>(x: Tree<V>)
    requires x.Node? && x.right.Node? && Avl(x.left) && Avl(x.right)
    requires Height(x.right) == Height(x.left) + 2 && BalanceFactor(x.right) == 1
    ensures x.right.left.Node?
    ensures Avl(RotateLeft(RightLeft(x))) && Height(RotateLeft(RightLeft(x))) == Height(x.right)
    ensures InOrder(RotateLeft(RightLeft(x))) == InOrder(x) && Keys(RotateLeft(RightLeft(x))) == Keys(x)
  {
    HeightPositive(x.left);
    var a := x.right;
    AvlParts(a);
    var b := a.left;
    AvlParts(b);
    var x1 := Join(x.info, x.left, b.left);
    var y1 := Join(a.info, b.right, a.right);
    JoinAvl(x.info, x.left, b.left);
    JoinAvl(a.info, b.right, a.right);
    JoinAvl(b.info, x1, y1);
    assert RotateLeft(RightLeft(x)) == Join(b.info, x1, y1);
  }

  /**
   * After an insertion of key that made a node's subtree one higher, the node is still the root
   * and leans to the side the key went down.
   */
  predicate GrewToward<V>(before: Tree<V>, after: Tree<V>, key: string)
  {
    before.Node? && Height(after) == Height(before) + 1 ==>
      after.Node? && after.info.key == before.info.key
      && BalanceFactor(after) == (if KeyLess(key, before.info.key) then 1 else -1)
  }

  /** What the rebalancing after an insertion of key needs in order not to fail. */
  predicate InsertRotatable<V>(t: Tree<V>, key: string)
  {
    && t.Node?
    && (BalanceFactor(t) > 1 ==> t.left.Node? && (!KeyLess(key, t.left.info.key) ==> t.left.right.Node?))
    && (BalanceFactor(t) < -1 ==> t.right.Node? && (KeyLess(key, t.right.info.key) ==> t.right.left.Node?))
  }

  /**
   * The rebalancing step of `insert` at the node an insertion of key passed through, with the
   * right-heavy test written `key >= root.right.key` (see AvlInsertAsWritten for line 91 as written).
   */
  function RebalanceInserted<V>(t: Tree<V>, key: string): Tree<V>
    requires InsertRotatable(t, key)
  {
    var balance := BalanceFactor(t);
    if balance > 1 then
      if KeyLess(key, t.left.info.key) then RotateRight(t) else RotateRight(LeftRight(t))
    else if balance < -1 then
      if !KeyLess(key, t.right.info.key) then RotateLeft(t) else RotateLeft(RightLeft(t))
    else t
  }

  /** The rebalancing after an insertion into the left subtree l of a node, which became l2. */
  lemma InsertedLeft<V>(info: HashInfo<V>, l: Tree<V>, r: Tree<V>, l2: Tree<V>, key: string)
    requires Avl(l) && Avl(r) && -1 <= Height(l) - Height(r) <= 1
    requires Avl(l2) && l2.Node? && Height(l) <= Height(l2) <= Height(l) + 1 && GrewToward(l, l2, key)
    requires KeyLess(key, info.key)
    ensures InsertRotatable(Join(info, l2, r), key)
    ensures var t := RebalanceInserted(Join(info, l2, r), key);
      && Avl(t) && t.Node? && Height(Join(info, l, r)) <= Height(t) <= Height(Join(info, l, r)) + 1
      && GrewToward(Join(info, l, r), t, key) && Keys(t) == Keys(Join(info, l2, r))
  {
    HeightPositive(l);
    HeightPositive(l2);
    HeightPositive(r);
    var t := Join(info, l2, r);
    if BalanceFactor(t) > 1 {
      if KeyLess(key, l2.info.key) {
        SingleRight(t);
      } else {
        DoubleRight(t);
      }
    } else {
      JoinAvl(info, l2, r);
    }
  }

  /** The rebalancing after an insertion into the right subtree r of a node, which became r2. */
  lemma InsertedRight<V>(info: HashInfo<V>, l: Tree<V>, r: Tree<V>, r2: Tree<V>, key: string)
    requires Avl(l) && Avl(r) && -1 <= Height(l) - Height(r) <= 1
    requires Avl(r2) && r2.Node? && Height(r) <= Height(r2) <= Height(r) + 1 && GrewToward(r, r2, key)
    requires !KeyLess(key, info.key)
    ensures InsertRotatable(Join(info, l, r2), key)
    ensures var t := RebalanceInserted(Join(info, l, r2), key);
      && Avl(t) && t.Node? && Height(Join(info, l, r)) <= Height(t) <= Height(Join(info, l, r)) + 1
      && GrewToward(Join(info, l, r), t, key) && Keys(t) == Keys(Join(info, l, r2))
  {
    HeightPositive(l);
    HeightPositive(r2);
    HeightPositive(r);
    var t := Join(info, l, r2);
    if BalanceFactor(t) < -1 {
      if !KeyLess(key, r2.info.key) {
        SingleLeft(t);
      } else {
        DoubleLeft(t);
      }
    } else {
      JoinAvl(info, l, r2);
    }
  }

  /**
   * `insert(root, hash_info)`: keys below the node's go left and all others right; the nodes on
   * the path get their heights recomputed and are rebalanced. The result is an AVL tree again,
   * at most one higher, holding the old keys and the new one.
   */
  function Insert<V>(root: Tree<V>, info: HashInfo<V>): (r: Tree<V>)
    requires Avl(root)
    ensures Avl(r) && r.Node?
    ensures Height(root) <= Height(r) <= Height(root) + 1
    ensures GrewToward(root, r, info.key)
    ensures Keys(r) == Keys(root) + {info.key}
    decreases root
  {
    if root.Nil? then Node(info, Nil, Nil, 1)
    else
      AvlParts(root);
      if KeyLess(info.key, root.info.key) then
        var left := Insert(root.left, info);
        InsertedLeft(root.info, root.left, root.right, left, info.key);
        RebalanceInserted(Join(root.info, left, root.right), info.key)
      else
        var right := Insert(root.right, info);
        InsertedRight(root.info, root.left, root.right, right, info.key);
        RebalanceInserted(Join(root.info, root.left, right), info.key)
  }

  /** `_min_value_node`, as a function: the node reached by following left children. */
  function Leftmost<V>(t: Tree<V>): (m: Tree<V>)
    ensures t.Node? ==> m.Node? && m.left.Nil? && m.info.key in Keys(t)
  {
    if t.Nil? || t.left.Nil? then t else Leftmost(t.left)
  }

  /** What the rebalancing after a deletion needs in order not to fail. */
  predicate DeleteRotatable<V>(t: Tree<V>)
  {
    && t.Node?
    && (BalanceFactor(t) > 1 ==> t.left.Node? && (BalanceFactor(t.left) < 0 ==> t.left.right.Node?))
    && (BalanceFactor(t) < -1 ==> t.right.Node? && (BalanceFactor(t.right) > 0 ==> t.right.left.Node?))
  }

  /** The rebalancing step of `delete`: the child's balance factor chooses one rotation or two. */
  function RebalanceDeleted<V>(t: Tree<V>): Tree<V>
    requires DeleteRotatable(t)
  {
    var balance := BalanceFactor(t);
    if balance > 1 then
      if BalanceFactor(t.left) >= 0 then RotateRight(t) else RotateRight(LeftRight(t))
    else if balance < -1 then
      if BalanceFactor(t.right) <= 0 then RotateLeft(t) else RotateLeft(RightLeft(t))
    else t
  }

  /** The rebalancing after a deletion from the left subtree l of a node, which became l2. */
  lemma DeletedLeft<V>(info: HashInfo<V>, l: Tree<V>, r: Tree<V>, l2: Tree<V>)
    requires Avl(l) && Avl(r) && -1 <= Height(l) - Height(r) <= 1
    requires Avl(l2) && Height(l) - 1 <= Height(l2) <= Height(l)
    ensures DeleteRotatable(Join(info, l2, r))
    ensures var t := RebalanceDeleted(Join(info, l2, r));
      && Avl(t) && Height(Join(info, l, r)) - 1 <= Height(t) <= Height(Join(info, l, r))
      && Keys(t) == Keys(Join(info, l2, r))
  {
    HeightPositive(l);
    HeightPositive(l2);
    HeightPositive(r);
    var t := Join(info, l2, r);
    if BalanceFactor(t) < -1 {
      AvlParts(r);
      if BalanceFactor(r) <= 0 {
        SingleLeft(t);
      } else {
        DoubleLeft(t);
      }
    } else {
      JoinAvl(info, l2, r);
    }
  }

  /** The rebalancing after a deletion from the right subtree r of a node, which became r2. */
  lemma DeletedRight<V>(info: HashInfo<V>, l: Tree<V>, r: Tree<V>, r2: Tree<V>)
    requires Avl(l) && Avl(r) && -1 <= Height(l) - Height(r) <= 1
    requires Avl(r2) && Height(r) - 1 <= Height(r2) <= Height(r)
    ensures DeleteRotatable(Join(info, l, r2))
    ensures var t := RebalanceDeleted(Join(info, l, r2));
      && Avl(t) && Height(Join(info, l, r)) - 1 <= Height(t) <= Height(Join(info, l, r))
      && Keys(t) == Keys(Join(info, l, r2))
  {
    HeightPositive(l);
    HeightPositive(r2);
    HeightPositive(r);
    var t := Join(info, l, r2);
    if BalanceFactor(t) > 1 {
      AvlParts(l);
      if BalanceFactor(l) >= 0 {
        SingleRight(t);
      } else {
        DoubleRight(t);
      }
    } else {
      JoinAvl(info, l, r2);
    }
  }

  /**
   * `delete(root, key)`: the node with the key is unlinked when it has at most one child, and
   * otherwise takes over the record of its in-order successor, which is then deleted from its
   * right subtree; the nodes on the path are rebalanced. The result is an AVL tree again, at most
   * one lower, and holds no key the tree did not hold.
   */
  function Delete<V>(root: Tree<V>, key: string): (r: Tree<V>)
    requires Avl(root)
    ensures Avl(r)
    ensures Height(root) - 1 <= Height(r) <= Height(root)
    ensures Keys(r) <= Keys(root)
    decreases root
  {
    if root.Nil? then root
    else
      AvlParts(root);
      if KeyLess(key, root.info.key) then
        var left := Delete(root.left, key);
        DeletedLeft(root.info, root.left, root.right, left);
        RebalanceDeleted(Join(root.info, left, root.right))
      else if KeyLess(root.info.key, key) then
        var right := Delete(root.right, key);
        DeletedRight(root.info, root.left, root.right, right);
        RebalanceDeleted(Join(root.info, root.left, right))
      else if root.left.Nil? then root.right
      else if root.right.Nil? then root.left
      else
        var successor := Leftmost(root.right).info;
        var right := Delete(root.right, successor.key);
        DeletedRight(successor, root.left, root.right, right);
        RebalanceDeleted(Join(HashInfo(successor.key, successor.value), root.left, right))
  }
}
