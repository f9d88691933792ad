/**
 * `insert` of lab_6/src/avl_tree.py as written. Equal keys go right (line 78), but the
 * right-heavy test of line 91 is the strict `key > root.right.key`, so a key equal to the right
 * child's takes the right-left branch, whose `_rotate_right(root.right)` reads the `right` field
 * of a missing left child. None stands for that AttributeError.
 */
module AvlInsertAsWritten {
  import opened Wrappers
  import opened KeyOrder
  import opened AvlTrees

  /** The rebalancing step as written, failing where a rotation would reach a missing child. */
  function RebalanceAsWritten<V>(t: Tree<V>, key: string): Option<Tree<V>>
    requires t.Node?
  {
    var balance := BalanceFactor(t);
    if balance > 1 then
      if t.left.Nil? then None
      else if KeyLess(key, t.left.info.key) then Some(RotateRight(t))
      else if t.left.right.Nil? then None
      else Some(RotateRight(LeftRight(t)))
    else if balance < -1 then
      if t.right.Nil? then None
      else if KeyLess(t.right.info.key, key) then Some(RotateLeft(t))
      else if t.right.left.Nil? then None
      else Some(RotateLeft(RightLeft(t)))
    else Some(t)
  }

  /**
   * The two rebalancing steps agree wherever the corrected one does not fail, unless the key
   * equals the right child's key at a right-heavy node.
   */
  lemma RebalanceAsWrittenAgrees<V>(t: Tree<V>, key: string)
    requires InsertRotatable(t, key) && (BalanceFactor(t) < -1 ==> key != t.right.info.key)
    ensures RebalanceAsWritten(t, key) == Some(RebalanceInserted(t, key))
  {
    if BalanceFactor(t) < -1 {
      KeyLessTotal(key, t.right.info.key);
      if KeyLess(key, t.right.info.key) {
        KeyLessAsymmetric(key, t.right.info.key);
      }
    }
  }

  /** `insert(root, hash_info)` as written; None when the rebalancing fails on the way up. */
  function InsertAsWritten<V>(root: Tree<V>, info: HashInfo<V>): Option<Tree<V>>
    decreases root
  {
    if root.Nil? then Some(Node(info, Nil, Nil, 1))
    else if KeyLess(info.key, root.info.key) then
      match InsertAsWritten(root.left, info)
      case None => None
      case Some(left) => RebalanceAsWritten(Join(root.info, left, root.right), info.key)
    else
      match InsertAsWritten(root.right, info)
      case None => None
      case Some(right) => RebalanceAsWritten(Join(root.info, root.left, right), info.key)
  }

  /**
   * For a key the tree does not hold, the code as written and Insert agree: a right-heavy node
   * after an insertion has grown on the right, so its right child kept its old, different key.
   */
  lemma {:induction false} InsertAsWrittenAgrees<V>(root: Tree<V>, info: HashInfo<V>)
    requires Avl(root) && info.key !in Keys(root)
    ensures InsertAsWritten(root, info) == Some(Insert(root, info))
    decreases root
  {
    if root.Node? {
      AvlParts(root);
      HeightPositive(root.left);
      HeightPositive(root.right);
      var key := info.key;
      if KeyLess(key, root.info.key) {
        InsertAsWrittenAgrees(root.left, info);
        var left := Insert(root.left, info);
        InsertedLeft(root.info, root.left, root.right, left, key);
        RebalanceAsWrittenAgrees(Join(root.info, left, root.right), key);
      } else {
        InsertAsWrittenAgrees(root.right, info);
        var right := Insert(root.right, info);
        InsertedRight(root.info, root.left, root.right, right, key);
        var t := Join(root.info, root.left, right);
        if BalanceFactor(t) < -1 {
          HeightPositive(right);
          assert Height(right) == Height(root.right) + 1;
          assert right.info.key == root.right.info.key;
          assert right.info.key in Keys(root);
        }
        RebalanceAsWrittenAgrees(t, key);
      }
    }
  }

  /** Inserting "a", "b" and "b" again fails as written; Insert is total on every AVL tree. */
  lemma DuplicateKeyCrash()
    ensures var t1 := InsertAsWritten(Nil, HashInfo("a", 0));
      && t1.Some? && InsertAsWritten(t1.value, HashInfo("b", 1)).Some?
      && InsertAsWritten(InsertAsWritten(t1.value, HashInfo("b", 1)).value, HashInfo("b", 2)) == None
  {
    var a := Node(HashInfo("a", 0), Nil, Nil, 1);
    var b := Node(HashInfo("b", 1), Nil, Nil, 1);
    var b2 := Node(HashInfo("b", 2), Nil, Nil, 1);
    assert KeyLess("a", "b") && !KeyLess("b", "a") && !KeyLess("b", "b");
    assert InsertAsWritten(Nil, HashInfo("b", 1)) == Some(b);
    assert InsertAsWritten(a, HashInfo("b", 1)) == Some(Node(HashInfo("a", 0), Nil, b, 2));
    assert InsertAsWritten(Nil, HashInfo("b", 2)) == Some(b2);
    assert InsertAsWritten(b, HashInfo("b", 2)) == Some(Node(HashInfo("b", 1), Nil, b2, 2));
  }
}
