/**
 * The chained hash table of lab_6/src/hash_table.py: `capacity` buckets, each BLANK or an AVL
 * tree of the records whose keys hash to it, and a `length` counter. The table's contents are
 * the union of its buckets' contents; every operation is proved against that map.
 */
module HashTables {
  import opened Wrappers
  import opened KeyOrder
  import opened AvlTrees
  import opened AvlOrder
  import opened AvlSearch

  /** The `AVLTree` object a bucket holds: its `root` and its `collision` flag. */
  datatype AvlTree<V> = AvlTree(root: Tree<V>, collision: bool)

  /** A bucket: the `BLANK` sentinel or a tree. */
  datatype Bucket<V> = Blank | Filled(avl: AvlTree<V>)

  /** The exception a missing key raises. */
  datatype Missing = KeyError(key: string)

  /** The sum of the key's code points. */
  function CodeSum(key: string): nat
  {
    if |key| == 0 then 0 else CodeSum(key[..|key| - 1]) + key[|key| - 1] as nat
  }

  /** `_hash_function`: the sum of the key's code points modulo the capacity, a bucket index. */
  function HashIndex(key: string, capacity: int): (i: nat)
    requires capacity > 0
    ensures i < capacity
  {
    CodeSum(key) % capacity
  }

  lemma {:induction false} CodeSumAppend(a: string, b: string)
    ensures CodeSum(a + b) == CodeSum(a) + CodeSum(b)
    decreases |b|
  {
    if |b| == 0 {
      assert a + b == a;
    } else {
      assert (a + b)[..|a + b| - 1] == a + b[..|b| - 1];
      CodeSumAppend(a, b[..|b| - 1]);
    }
  }

  function BucketContents<V>(b: Bucket<V>): map<string, V>
  {
    if b.Blank? then map[] else Contents(b.avl.root)
  }

  /** The records of all buckets. */
  function TableContents<V>(table: seq<Bucket<V>>): map<string, V>
  {
    if |table| == 0 then map[] else TableContents(table[..|table| - 1]) + BucketContents(table[|table| - 1])
  }

  /** Every key is stored in the bucket it hashes to. */
  predicate Hashed<V>(table: seq<Bucket<V>>, capacity: int)
  {
    capacity > 0
    && forall i, k | 0 <= i < |table| && k in BucketContents(table[i]) :: HashIndex(k, capacity) == i
  }

  /** In a hashed table a key is stored exactly when its own bucket stores it, with the same value. */
  lemma {:induction false} TableLookup<V>(table: seq<Bucket<V>>, capacity: int, key: string)
    requires Hashed(table, capacity)
    ensures key in TableContents(table) <==>
      HashIndex(key, capacity) < |table| && key in BucketContents(table[HashIndex(key, capacity)])
    ensures key in TableContents(table) ==>
      TableContents(table)[key] == BucketContents(table[HashIndex(key, capacity)])[key]
    decreases |table|
  {
    if |table| > 0 {
      var n := |table| - 1;
      var pre := table[..n];
      assert forall i | 0 <= i < n :: pre[i] == table[i];
      TableLookup(pre, capacity, key);
    }
  }

  /** Keys made of the same parts in the other order hash alike, as "abc" and "cba" do. */
  lemma SwappedCollide(a: string, b: string, capacity: int)
    requires capacity > 0
    ensures HashIndex(a + b, capacity) == HashIndex(b + a, capacity)
  {
    CodeSumAppend(a, b);
    CodeSumAppend(b, a);
  }

  /**
   * Replacing bucket h of a hashed table by one whose keys hash to h: keys hashing elsewhere
   * keep their records, keys hashing to h have the new bucket's.
   */
  lemma TableReplaceAt<V>(table: seq<Bucket<V>>, capacity: int, h: nat, b: Bucket<V>, k: string)
    requires Hashed(table, capacity) && |table| == capacity && h < |table|
    requires forall k | k in BucketContents(b) :: HashIndex(k, capacity) == h
    ensures Hashed(table[h := b], capacity)
    ensures HashIndex(k, capacity) != h ==>
      (k in TableContents(table[h := b]) <==> k in TableContents(table))
      && (k in TableContents(table) ==> TableContents(table[h := b])[k] == TableContents(table)[k])
    ensures HashIndex(k, capacity) == h ==>
      (k in TableContents(table[h := b]) <==> k in BucketContents(b))
      && (k in BucketContents(b) ==> TableContents(table[h := b])[k] == BucketContents(b)[k])
      && (k in TableContents(table) <==> k in BucketContents(table[h]))
      && (k in TableContents(table) ==> TableContents(table)[k] == BucketContents(table[h])[k])
  {
    var t2 := table[h := b];
    assert Hashed(t2, capacity);
    TableLookup(t2, capacity, k);
    TableLookup(table, capacity, k);
  }

  /** A bucket replaced by one storing the record of a key that hashes to it: the table stores it too. */
  lemma TableStore<V>(table: seq<Bucket<V>>, capacity: int, h: nat, b: Bucket<V>, key: string, value: V)
    requires Hashed(table, capacity) && |table| == capacity && h == HashIndex(key, capacity)
    requires forall k | k in BucketContents(b) :: HashIndex(k, capacity) == h
    requires BucketContents(b) == BucketContents(table[h])[key := value]
    ensures Hashed(table[h := b], capacity)
    ensures TableContents(table[h := b]) == TableContents(table)[key := value]
  {
    var t2 := table[h := b];
    var m := TableContents(table)[key := value];
    TableReplaceAt(table, capacity, h, b, key);
    forall k
      ensures (k in TableContents(t2) <==> k in m) && (k in m ==> TableContents(t2)[k] == m[k])
    {
      TableReplaceAt(table, capacity, h, b, k);
    }
  }

  /** A bucket replaced by one without a key that hashes to it: the table loses only that key. */
  lemma TableRemove<V>(table: seq<Bucket<V>>, capacity: int, h: nat, b: Bucket<V>, key: string)
    requires Hashed(table, capacity) && |table| == capacity && h == HashIndex(key, capacity)
    requires forall k | k in BucketContents(b) :: HashIndex(k, capacity) == h
    requires BucketContents(b) == BucketContents(table[h]) - {key}
    ensures Hashed(table[h := b], capacity)
    ensures TableContents(table[h := b]) == TableContents(table) - {key}
  {
    var t2 := table[h := b];
    var m := TableContents(table) - {key};
    TableReplaceAt(table, capacity, h, b, key);
    forall k
      ensures (k in TableContents(t2) <==> k in m) && (k in m ==> TableContents(t2)[k] == m[k])
    {
      TableReplaceAt(table, capacity, h, b, k);
    }
  }

  /** What each bucket holds: a non-empty AVL search tree. */
  predicate BucketOk<V>(b: Bucket<V>)
  {
    b.Filled? ==> b.avl.root.Node? && Avl(b.avl.root) && Ordered(b.avl.root)
  }

  /** Every key of the bucket hashes to h. */
  predicate HashesTo<V>(b: Bucket<V>, capacity: int, h: nat)
  {
    capacity > 0 && forall k | k in BucketContents(b) :: HashIndex(k, capacity) == h
  }

  /**
   * The bucket `__setitem__` leaves: a BLANK bucket gets a fresh tree, a non-empty tree gets its
   * collision flag set, and then the record is inserted, or its value updated when already stored.
   */
  function Written<V>(b: Bucket<V>, info: HashInfo<V>, present: bool): Bucket<V>
    requires BucketOk(b)
  {
    var avl := if b.Blank? then AvlTree(Nil, false)
      else b.avl.(collision := b.avl.collision || b.avl.root.Node?);
    Filled(avl.(root := if present then Update(avl.root, info) else Insert(avl.root, info)))
  }

  /**
   * Writing a record into its bucket keeps the bucket in order and the keys hashed, stores the
   * record, and sets the collision flag exactly when the bucket already held a tree.
   */
  lemma WrittenContents<V>(b: Bucket<V>, info: HashInfo<V>, capacity: int, h: nat)
    requires BucketOk(b) && HashesTo(b, capacity, h) && HashIndex(info.key, capacity) == h
    ensures BucketOk(Written(b, info, info.key in BucketContents(b)))
    ensures HashesTo(Written(b, info, info.key in BucketContents(b)), capacity, h)
    ensures BucketContents(Written(b, info, info.key in BucketContents(b))) == BucketContents(b)[info.key := info.value]
    ensures Written(b, info, info.key in BucketContents(b)).avl.collision == b.Filled?
  {
    var root := if b.Blank? then Nil else b.avl.root;
    assert BucketContents(b) == Contents(root);
    ContentsKeys(root);
    if info.key in BucketContents(b) {
      UpdateOrdered(root, info);
      ContentsKeys(Update(root, info));
    } else {
      InsertOrdered(root, info);
      ContentsKeys(Insert(root, info));
    }
  }

  /** The bucket `__delitem__` leaves: the key deleted from its tree, and BLANK once the tree is empty. */
  function Erased<V>(b: Bucket<V>, key: string): Bucket<V>
    requires BucketOk(b) && b.Filled?
  {
    var root := Delete(b.avl.root, key);
    if root.Nil? then Blank else Filled(b.avl.(root := root))
  }

  /** Deleting a key from its bucket keeps the bucket in order and the keys hashed, and removes its record. */
  lemma ErasedContents<V>(b: Bucket<V>, key: string, capacity: int, h: nat)
    requires BucketOk(b) && b.Filled? && HashesTo(b, capacity, h)
    ensures BucketOk(Erased(b, key)) && HashesTo(Erased(b, key), capacity, h)
    ensures BucketContents(Erased(b, key)) == BucketContents(b) - {key}
  {
    DeleteOrdered(b.avl.root, key);
    ContentsKeys(Delete(b.avl.root, key));
    ContentsKeys(b.avl.root);
  }

  /** The table invariant on values: one bucket per index, each in order, keys hashed, the count right. */
  predicate TableOk<V>(table: seq<Bucket<V>>, capacity: int, length: int)
  {
    && |table| == capacity
    && Hashed(table, capacity)
    && (forall i | 0 <= i < |table| :: BucketOk(table[i]))
    && length == |TableContents(table)|
  }

  /** A write changes only the key's bucket is the key's, which then stores the record. */
  lemma SetKeepsOk<V>(table: seq<Bucket<V>>, capacity: int, length: int, info: HashInfo<V>)
    requires TableOk(table, capacity, length)
    ensures var h := HashIndex(info.key, capacity);
      var present := info.key in TableContents(table);
      var t2 := table[h := Written(table[h], info, present)];
      && TableOk(t2, capacity, length + (if present then 0 else 1))
      && TableContents(t2) == TableContents(table)[info.key := info.value]
      && t2[h].avl.collision == table[h].Filled?
  {
    var h := HashIndex(info.key, capacity);
    var present := info.key in TableContents(table);
    TableLookup(table, capacity, info.key);
    assert present == (info.key in BucketContents(table[h]));
    WrittenContents(table[h], info, capacity, h);
    var b := Written(table[h], info, present);
    TableStore(table, capacity, h, b, info.key, info.value);
  }

  /** Deleting a stored key changes only its bucket, and the table then lacks it. */
  lemma DelKeepsOk<V>(table: seq<Bucket<V>>, capacity: int, length: int, key: string)
    requires TableOk(table, capacity, length) && key in TableContents(table)
    ensures table[HashIndex(key, capacity)].Filled?
    ensures var h := HashIndex(key, capacity);
      var t2 := table[h := Erased(table[h], key)];
      && TableOk(t2, capacity, length - 1)
      && TableContents(t2) == TableContents(table) - {key}
  {
    var h := HashIndex(key, capacity);
    TableLookup(table, capacity, key);
    ErasedContents(table[h], key, capacity, h);
    var b := Erased(table[h], key);
    TableRemove(table, capacity, h, b, key);
  }

  class HashTable<V> {
    const capacity: int
    var length: int
    var table: seq<Bucket<V>>

    /** The key-to-value records the table stores. */
    function Contents(): map<string, V>
      reads this
    {
      TableContents(table)
    }

    /** The table's invariant: `capacity` buckets, each in order, keys in their own bucket, the count right. */
    predicate Valid()
      reads this
    {
      TableOk(table, capacity, length)
    }

    /** `HashTable(capacity)`: every bucket BLANK and nothing stored. */
    constructor(capacity: int)
      requires capacity > 0
      ensures Valid() && this.capacity == capacity
      ensures length == 0 && table == seq(capacity, _ => Blank) && Contents() == map[]
    {
      this.capacity := capacity;
      length := 0;
      table := seq(capacity, _ => Blank);
      new;
      BlankContents(table);
    }

    /** `__len__`: the number of stored keys. */
    function Len(): (n: int)
      requires Valid()
      reads this
      ensures n == |Contents()|
    {
      length
    }

    /** `__getitem__`: the stored value, or KeyError when the key's bucket is BLANK or lacks it. */
    method GetItem(key: string) returns (r: Result<V, Missing>)
      requires Valid()
      ensures r.Ok? <==> key in Contents()
      ensures r.Ok? ==> r.value == Contents()[key]
      ensures r.Err? ==> r.error == KeyError(key)
    {
      var index := HashIndex(key, capacity);
      TableLookup(table, capacity, key);
      if table[index].Blank? {
        return Err(KeyError(key));
      }
      var node := Search(table[index].avl.root, key);
      if node.Nil? {
        return Err(KeyError(key));
      }
      return Ok(node.info.value);
    }

    /** `__contains__`: whether `__getitem__` succeeds. */
    method Contains(key: string) returns (b: bool)
      requires Valid()
      ensures b <==> key in Contents()
    {
      var r := GetItem(key);
      b := r.Ok?;
    }

    /** `get(key, default)`: the stored value, or the default. */
    method Get(key: string, default: V) returns (r: V)
      requires Valid()
      ensures r == if key in Contents() then Contents()[key] else default
    {
      var item := GetItem(key);
      if item.Err? {
        return default;
      }
      return item.value;
    }

    /**
     * `__setitem__`: the key's bucket becomes Written, so the table stores the record, the count
     * grows by one for a new key, and no other bucket changes.
     */
    method SetItem(key: string, value: V)
      requires Valid()
      modifies this
      ensures Valid()
      ensures Contents() == old(Contents())[key := value]
      ensures length == old(length) + (if key in old(Contents()) then 0 else 1)
      ensures table == old(table)[HashIndex(key, capacity) :=
        Written(old(table)[HashIndex(key, capacity)], HashInfo(key, value), key in old(Contents()))]
      ensures table[HashIndex(key, capacity)].avl.collision == old(table)[HashIndex(key, capacity)].Filled?
    {
      var index := HashIndex(key, capacity);
      var info := HashInfo(key, value);
      var present := Contains(key);
      SetKeepsOk(table, capacity, length, info);
      table := table[index := Written(table[index], info, present)];
      if !present {
        length := length + 1;
      }
    }

    /**
     * `__delitem__`: KeyError when the key is not stored; otherwise its bucket becomes Erased, so
     * the table loses exactly that key, the count drops by one, and no other bucket changes.
     */
    method DelItem(key: string) returns (r: Result<(), Missing>)
      requires Valid()
      modifies this
      ensures Valid()
      ensures r.Err? <==> key !in old(Contents())
      ensures r.Err? ==> r.error == KeyError(key) && table == old(table) && length == old(length)
      ensures r.Ok? ==> old(table)[HashIndex(key, capacity)].Filled?
      ensures r.Ok? ==> table == old(table)[HashIndex(key, capacity) := Erased(old(table)[HashIndex(key, capacity)], key)]
      ensures r.Ok? ==> Contents() == old(Contents()) - {key} && length == old(length) - 1
    {
      var index := HashIndex(key, capacity);
      TableLookup(table, capacity, key);
      if table[index].Blank? {
        return Err(KeyError(key));
      }
      var node := Search(table[index].avl.root, key);
      if node.Nil? {
        return Err(KeyError(key));
      }
      DelKeepsOk(table, capacity, length, key);
      table := table[index := Erased(table[index], key)];
      length := length - 1;
      return Ok(());
    }
  }

  /** A table of BLANK buckets stores nothing. */
  lemma {:induction false} BlankContents<V>(table: seq<Bucket<V>>)
    requires forall i | 0 <= i < |table| :: table[i].Blank?
    ensures TableContents(table) == map[]
    decreases |table|
  {
    if |table| > 0 {
      BlankContents(table[..|table| - 1]);
    }
  }
}
