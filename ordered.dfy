/**
 * Python dictionaries from integer keys to lists, which the source fills with
 * `setdefault(key, []).append(value)` and reads back in insertion order.  A dictionary
 * is an association list of (key, list) entries with distinct keys.
 */
module Ordered {

  type Groups<V> = seq<(int, seq<V>)>

  predicate DistinctKeys<V>(g: Groups<V>)
  {
    forall i, j | 0 <= i < j < |g| :: g[i].0 != g[j].0
  }

  /** `key in d` */
  predicate Has<V>(g: Groups<V>, key: int)
  {
    exists i | 0 <= i < |g| :: g[i].0 == key
  }

  /** A key is in a non-empty dictionary when it is the first key or a key of the rest. */
  lemma HasTail<V>(g: Groups<V>)
    requires |g| > 0
    ensures forall k :: Has(g, k) <==> g[0].0 == k || Has(g[1..], k)
  {
    forall k ensures Has(g, k) ==> g[0].0 == k || Has(g[1..], k) {
      if Has(g, k) && g[0].0 != k {
        var i :| 0 <= i < |g| && g[i].0 == k;
        assert g[1..][i - 1].0 == k;
      }
    }
    forall k ensures Has(g[1..], k) ==> Has(g, k) {
      if Has(g[1..], k) {
        var i :| 0 <= i < |g[1..]| && g[1..][i].0 == k;
        assert g[i + 1].0 == k;
      }
    }
  }

  /** `d.get(key, [])` */
  function Get<V>(g: Groups<V>, key: int): (r: seq<V>)
    ensures !Has(g, key) ==> r == []
  {
    if |g| == 0 then []
    else if g[0].0 == key then g[0].1
    else Get(g[1..], key)
  }

  /** A list after a prefix is the prefix of the list, then its last element. */
  lemma AppendLast<V>(a: seq<V>, s: seq<V>)
    requires |s| > 0
    ensures (a + s[..|s| - 1]) + [s[|s| - 1]] == a + s
  {
    assert s[..|s| - 1] + [s[|s| - 1]] == s;
  }

  /** `d.setdefault(key, []).append(v)` */
  function Append<V>(g: Groups<V>, key: int, v: V): (r: Groups<V>)
    ensures forall k :: Get(r, k) == if k == key then Get(g, k) + [v] else Get(g, k)
    ensures forall k :: Has(r, k) <==> Has(g, k) || k == key
    ensures DistinctKeys(g) ==> DistinctKeys(r)
    ensures |r| == if Has(g, key) then |g| else |g| + 1
  {
    if |g| == 0 then [(key, [v])]
    else if g[0].0 == key then [(key, g[0].1 + [v])] + g[1..]
    else
      var rest := Append(g[1..], key, v);
      HasTail(g);
      var r := [g[0]] + rest;
      assert r[1..] == rest;
      HasTail(r);
      assert DistinctKeys(g) ==> DistinctKeys(r) by {
        if DistinctKeys(g) {
          assert DistinctKeys(g[1..]);
          assert !Has(g[1..], g[0].0);
          forall i, j | 0 <= i < j < |r| ensures r[i].0 != r[j].0 {
            if i == 0 {
              assert Has(rest, r[j].0) by { assert rest[j - 1] == r[j]; }
            }
          }
        }
      }
      r
  }

  /** `[v for lst in d.values() for v in lst]` */
  function Flatten<V>(g: Groups<V>): (r: seq<V>)
  {
    if |g| == 0 then [] else g[0].1 + Flatten(g[1..])
  }

  /** Appending files one more value: the flattened dictionary gains exactly that value. */
  lemma {:induction false} FlattenAppend<V>(g: Groups<V>, key: int, v: V)
    ensures multiset(Flatten(Append(g, key, v))) == multiset(Flatten(g)) + multiset{v}
  {
    if |g| > 0 && g[0].0 != key {
      FlattenAppend(g[1..], key, v);
      assert Append(g, key, v)[1..] == Append(g[1..], key, v);
    } else if |g| > 0 {
      assert Append(g, key, v)[1..] == g[1..];
    }
  }

  /** With distinct keys, a value appears in the flattened dictionary exactly when it is filed under some key. */
  lemma {:induction false} FlattenMembership<V>(g: Groups<V>, v: V)
    requires DistinctKeys(g)
    ensures v in Flatten(g) <==> exists k :: Has(g, k) && v in Get(g, k)
  {
    if |g| > 0 {
      assert DistinctKeys(g[1..]);
      FlattenMembership(g[1..], v);
      if v in Flatten(g) {
        if v in g[0].1 {
          assert Has(g, g[0].0) && v in Get(g, g[0].0);
        } else {
          var k :| Has(g[1..], k) && v in Get(g[1..], k);
          var i :| 0 <= i < |g[1..]| && g[1..][i].0 == k;
          assert g[i + 1].0 == k;
          assert Has(g, k) && v in Get(g, k);
        }
      }
      if exists k :: Has(g, k) && v in Get(g, k) {
        var k :| Has(g, k) && v in Get(g, k);
        if k != g[0].0 {
          var i :| 0 <= i < |g| && g[i].0 == k;
          assert g[1..][i - 1].0 == k;
          assert Has(g[1..], k);
        }
      }
    }
  }

  /** Ascending insertion of `x` into a strictly ascending list (a no-op when `x` is already present). */
  function InsertSorted(s: seq<int>, x: int): (r: seq<int>)
    requires StrictlyAscending(s)
    ensures StrictlyAscending(r)
    ensures forall y :: y in r <==> y in s || y == x
  {
    if |s| == 0 then [x]
    else if x < s[0] then [x] + s
    else if x == s[0] then s
    else
      var rest := InsertSorted(s[1..], x);
      assert forall i | 0 <= i < |rest| :: s[0] < rest[i] by {
        forall i | 0 <= i < |rest| ensures s[0] < rest[i] {
          assert rest[i] in rest;
          if rest[i] != x {
            var j :| 0 <= j < |s[1..]| && s[1..][j] == rest[i];
            assert s[j + 1] == rest[i];
          }
        }
      }
      [s[0]] + rest
  }

  predicate StrictlyAscending(s: seq<int>)
  {
    forall i, j | 0 <= i < j < |s| :: s[i] < s[j]
  }

  /** The keys in insertion order: `list(d)`. */
  function Keys<V>(g: Groups<V>): (r: seq<int>)
    ensures |r| == |g|
    ensures forall i | 0 <= i < |g| :: r[i] == g[i].0
  {
    if |g| == 0 then [] else [g[0].0] + Keys(g[1..])
  }

  /** `sorted(d)`: the keys in ascending order. */
  function SortedKeys<V>(g: Groups<V>): (r: seq<int>)
    ensures StrictlyAscending(r)
    ensures forall k :: k in r <==> Has(g, k)
  {
    if |g| == 0 then []
    else
      var rest := SortedKeys(g[1..]);
      HasTail(g);
      InsertSorted(rest, g[0].0)
  }

  /** Every value filed under a key is in the flattened dictionary. */
  lemma {:induction false} GetInFlatten<V>(g: Groups<V>, key: int, v: V)
    requires v in Get(g, key)
    ensures v in Flatten(g)
  {
    if g[0].0 != key {
      GetInFlatten(g[1..], key, v);
    }
  }

  lemma {:induction false} FlattenSnoc<V>(g: Groups<V>, e: (int, seq<V>))
    ensures Flatten(g + [e]) == Flatten(g) + e.1
  {
    if |g| > 0 {
      assert (g + [e])[1..] == g[1..] + [e];
      FlattenSnoc(g[1..], e);
    }
  }

  /** Adding an entry with a new key at the end leaves the old keys' lists alone. */
  lemma {:induction false} GetSnoc<V>(g: Groups<V>, e: (int, seq<V>), key: int)
    requires !Has(g, e.0)
    ensures Has(g + [e], key) <==> Has(g, key) || key == e.0
    ensures Get(g + [e], key) == if key == e.0 then e.1 else Get(g, key)
  {
    if |g| > 0 {
      HasTail(g);
      HasTail(g + [e]);
      assert (g + [e])[1..] == g[1..] + [e];
      GetSnoc(g[1..], e, key);
    } else {
      HasTail(g + [e]);
    }
  }

  lemma DistinctKeysPrefix<V>(g: Groups<V>, i: nat)
    requires DistinctKeys(g) && i < |g|
    ensures DistinctKeys(g[..i]) && !Has(g[..i], g[i].0)
    ensures g[..i + 1] == g[..i] + [g[i]]
  {
  }
}
