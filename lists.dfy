/** Python list operations shared by the minimisations. */
module Lists {

  /** `list.remove(x)`: drop the first element equal to x (the source only calls it with x present). */
  function RemoveFirst<T(==)>(s: seq<T>, x: T): (r: seq<T>)
    ensures x in s ==> |r| == |s| - 1 && multiset(r) == multiset(s) - multiset{x}
    ensures x !in s ==> r == s
  {
    if |s| == 0 then []
    else if s[0] == x then
      assert s == [s[0]] + s[1..];
      s[1..]
    else
      var rest := RemoveFirst(s[1..], x);
      assert s == [s[0]] + s[1..];
      [s[0]] + rest
  }

  /** A sequence without repeated elements. */
  predicate Distinct<T(==)>(s: seq<T>)
  {
    forall i, j | 0 <= i < j < |s| :: s[i] != s[j]
  }

  /** In a sequence without repetitions every element occurs at most once. */
  lemma {:induction false} DistinctMultiplicity<T>(s: seq<T>, v: T)
    requires Distinct(s)
    ensures multiset(s)[v] <= 1
  {
    if |s| > 0 {
      assert s == [s[0]] + s[1..];
      DistinctMultiplicity(s[1..], v);
      if s[0] == v {
        assert v !in s[1..];
      }
    }
  }

  /** A rearrangement of a sequence without repetitions has none either. */
  lemma PermutationDistinct<T>(s: seq<T>, t: seq<T>)
    requires multiset(s) == multiset(t) && Distinct(t)
    ensures Distinct(s)
  {
    forall a, b | 0 <= a < b < |s| ensures s[a] != s[b] {
      if s[a] == s[b] {
        var v := s[a];
        assert s == s[..b] + [s[b]] + s[b + 1..];
        assert v in s[..b];
        assert multiset(s)[v] >= 2;
        DistinctMultiplicity(t, v);
      }
    }
  }

  /** After `list.remove(x)` the other elements are still there, and nothing new is. */
  lemma RemoveFirstMembers<T>(s: seq<T>, x: T, y: T)
    ensures y in RemoveFirst(s, x) ==> y in s
    ensures y in s && y != x ==> y in RemoveFirst(s, x)
  {
    var r := RemoveFirst(s, x);
    if x in s {
      assert multiset(r)[y] == multiset(s)[y] - (if y == x then 1 else 0);
    }
  }

  /** Removing an element from a sequence without repetitions removes its only occurrence. */
  lemma {:induction false} DistinctRemoveFirst<T>(s: seq<T>, x: T)
    requires Distinct(s)
    ensures Distinct(RemoveFirst(s, x)) && x !in RemoveFirst(s, x)
  {
    if |s| > 0 {
      assert s == [s[0]] + s[1..];
      var tail := s[1..];
      if s[0] != x {
        DistinctRemoveFirst(tail, x);
        RemoveFirstMembers(tail, x, s[0]);
        assert RemoveFirst(s, x) == [s[0]] + RemoveFirst(tail, x);
      }
    }
  }

  /** `[y for y in s if y != x]` */
  function Without<T(==)>(s: seq<T>, x: T): (r: seq<T>)
    ensures forall y | y in r :: y in s && y != x
    ensures forall y | y in s && y != x :: y in r
  {
    if |s| == 0 then []
    else
      var k := |s| - 1;
      assert s == s[..k] + [s[k]];
      Without(s[..k], x) + (if s[k] != x then [s[k]] else [])
  }

  /** A proper subset has fewer elements. */
  lemma StrictSubsetCard<T>(a: set<T>, b: set<T>, x: T)
    requires a <= b && x in b && x !in a
    ensures |a| < |b|
  {
    var c := b - {x};
    assert c == a + (c - a);
    assert a * (c - a) == {};
  }

  /** A set that is not contained in another has an element outside it. */
  lemma Outside<T>(a: set<T>, b: set<T>) returns (x: T)
    requires !(a <= b)
    ensures x in a && x !in b
  {
    x :| x in a && x !in b;
  }
}
