/**
 * Implicant vectors of the Quine–McCluskey minimiser (lab_3/src/corno/minimizer.py) and
 * the primitives that compare and merge them.  The source stores an implicant as a list
 * mixing the integers 0 and 1 with the string "*"; here each position is a `Trit`.
 */
module Implicants {

  /** One position of an implicant: a 0 bit, a 1 bit, or the `"*"` a merge leaves behind. */
  datatype Trit = Zero | One | Star

  type Implicant = seq<Trit>

  /** A truth-table cell (0 or 1) as an implicant position. */
  function FromBit(b: int): Trit
  {
    if b == 0 then Zero else One
  }

  /** A truth-table constituent as an implicant. */
  function FromRow(row: seq<int>): (r: Implicant)
    ensures |r| == |row|
    ensures StarFree(r)
  {
    seq(|row|, k requires 0 <= k < |row| => FromBit(row[k]))
  }

  predicate StarFree(v: Implicant)
  {
    forall i | 0 <= i < |v| :: v[i] != Star
  }

  /** The number of positions of v holding t (`v.count(t)`). */
  function Count(v: Implicant, t: Trit): (r: nat)
    ensures r <= |v|
  {
    if |v| == 0 then 0 else Count(v[..|v| - 1], t) + (if v[|v| - 1] == t then 1 else 0)
  }

  /** The number of ones, the key `row.count(1)` an implicant is filed under. */
  function Popcount(v: Implicant): nat
  {
    Count(v, One)
  }

  function StarCount(v: Implicant): nat
  {
    Count(v, Star)
  }

  /** Overwriting one position changes the count of each value by at most one. */
  lemma {:induction false} CountUpdate(v: Implicant, d: nat, x: Trit, t: Trit)
    requires d < |v|
    ensures Count(v[d := x], t) == Count(v, t) - (if v[d] == t then 1 else 0) + (if x == t then 1 else 0)
  {
    var n := |v|;
    if d < n - 1 {
      CountUpdate(v[..n - 1], d, x, t);
      assert v[d := x][..n - 1] == v[..n - 1][d := x];
    } else {
      assert v[d := x][..n - 1] == v[..n - 1];
    }
  }

  /** A vector with a non-star position has fewer stars than positions. */
  lemma {:induction false} StarCountBelowLength(v: Implicant, d: nat)
    requires d < |v| && v[d] != Star
    ensures StarCount(v) < |v|
  {
    var n := |v|;
    if d < n - 1 {
      StarCountBelowLength(v[..n - 1], d);
    }
  }

  lemma {:induction false} StarFreeHasNoStars(v: Implicant)
    requires StarFree(v)
    ensures StarCount(v) == 0
  {
    if |v| > 0 {
      StarFreeHasNoStars(v[..|v| - 1]);
    }
  }

  // ---------------------------------------------------------------------------------------
  // is_one_bit_different

  /** The number of positions where a and b differ. */
  function DiffCount(a: Implicant, b: Implicant): nat
    requires |a| == |b|
  {
    if |a| == 0 then 0
    else DiffCount(a[..|a| - 1], b[..|b| - 1]) + (if a[|a| - 1] != b[|b| - 1] then 1 else 0)
  }

  /** The last position where a and b differ, or -1. */
  function LastDiff(a: Implicant, b: Implicant): (r: int)
    requires |a| == |b|
    ensures -1 <= r < |a|
    ensures r == -1 <==> DiffCount(a, b) == 0
  {
    if |a| == 0 then -1
    else if a[|a| - 1] != b[|b| - 1] then |a| - 1
    else LastDiff(a[..|a| - 1], b[..|b| - 1])
  }

  /** What `is_one_bit_different` returns: the single differing position, or -1. */
  function DiffIndex(a: Implicant, b: Implicant): (r: int)
    requires |a| == |b|
    ensures -1 <= r < |a|
  {
    if DiffCount(a, b) == 1 then LastDiff(a, b) else -1
  }

  /**
   * `is_one_bit_different`: scan the positions, remember the first difference, and give up
   * with -1 at a second one.
   */
  method IsOneBitDifferent(a: Implicant, b: Implicant) returns (r: int)
    requires |a| == |b|
    ensures r == DiffIndex(a, b)
  {
    var index := -1;
    var i := 0;
    while i < |a|
      invariant 0 <= i <= |a|
      invariant DiffCount(a[..i], b[..i]) <= 1
      invariant index == if DiffCount(a[..i], b[..i]) == 0 then -1 else LastDiff(a[..i], b[..i])
    {
      assert a[..i + 1][..i] == a[..i] && b[..i + 1][..i] == b[..i];
      if a[i] != b[i] {
        if index != -1 {
          DiffCountPrefix(a, b, i + 1);
          return -1;
        }
        index := i;
      }
      i := i + 1;
    }
    assert a[..i] == a && b[..i] == b;
    return index;
  }

  /** Differences of a prefix are differences of the whole. */
  lemma {:induction false} DiffCountPrefix(a: Implicant, b: Implicant, i: nat)
    requires |a| == |b| && i <= |a|
    ensures DiffCount(a[..i], b[..i]) <= DiffCount(a, b)
  {
    if i < |a| {
      DiffCountPrefix(a[..|a| - 1], b[..|b| - 1], i);
      assert a[..|a| - 1][..i] == a[..i] && b[..|b| - 1][..i] == b[..i];
    } else {
      assert a[..i] == a && b[..i] == b;
    }
  }

  /** The set of positions where a and b differ. */
  ghost function DiffSet(a: Implicant, b: Implicant): set<int>
    requires |a| == |b|
  {
    set i | 0 <= i < |a| && a[i] != b[i]
  }

  /** DiffCount counts DiffSet, and LastDiff is one of its elements (or -1 when it is empty). */
  lemma {:induction false} DiffSetFacts(a: Implicant, b: Implicant)
    requires |a| == |b|
    ensures DiffCount(a, b) == |DiffSet(a, b)|
    ensures DiffSet(a, b) == {} <==> LastDiff(a, b) == -1
    ensures DiffSet(a, b) != {} ==> LastDiff(a, b) in DiffSet(a, b)
  {
    if |a| > 0 {
      var n := |a|;
      var pa, pb := a[..n - 1], b[..n - 1];
      DiffSetFacts(pa, pb);
      var s, ps := DiffSet(a, b), DiffSet(pa, pb);
      assert ps == set i | 0 <= i < n - 1 && a[i] != b[i];
      assert n - 1 !in ps;
      if a[n - 1] != b[n - 1] {
        assert s == ps + {n - 1};
        assert LastDiff(a, b) == n - 1;
      } else {
        assert s == ps;
        assert LastDiff(a, b) == LastDiff(pa, pb);
      }
    }
  }

  /** A set of size one is the singleton of any of its elements. */
  lemma SingletonSet(s: set<int>, x: int)
    requires |s| == 1 && x in s
    ensures s == {x}
  {
    assert |s - {x}| == 0;
  }

  /**
   * `is_one_bit_different` returns k exactly when k is the only position where the
   * vectors differ, and -1 exactly when they are equal or differ in two or more places.
   */
  lemma OneBitDifferenceSpec(a: Implicant, b: Implicant)
    requires |a| == |b|
    ensures forall k | 0 <= k < |a| ::
      DiffIndex(a, b) == k <==> a[k] != b[k] && forall i | 0 <= i < |a| && i != k :: a[i] == b[i]
    ensures DiffIndex(a, b) == -1 <==> a == b || exists i, j | 0 <= i < j < |a| :: a[i] != b[i] && a[j] != b[j]
  {
    forall k | 0 <= k < |a|
      ensures DiffIndex(a, b) == k <==> a[k] != b[k] && forall i | 0 <= i < |a| && i != k :: a[i] == b[i]
    {
      DiffIndexAt(a, b, k);
    }
    DiffIndexNone(a, b);
  }

  lemma DiffIndexAt(a: Implicant, b: Implicant, k: nat)
    requires |a| == |b| && k < |a|
    ensures DiffIndex(a, b) == k <==> a[k] != b[k] && forall i | 0 <= i < |a| && i != k :: a[i] == b[i]
  {
    DiffSetFacts(a, b);
    var s := DiffSet(a, b);
    if DiffIndex(a, b) == k {
      SingletonSet(s, k);
      forall i | 0 <= i < |a| && i != k ensures a[i] == b[i] {
        assert i !in s;
      }
    }
    if a[k] != b[k] && forall i | 0 <= i < |a| && i != k :: a[i] == b[i] {
      assert s == {k};
    }
  }

  lemma DiffIndexNone(a: Implicant, b: Implicant)
    requires |a| == |b|
    ensures DiffIndex(a, b) == -1 <==> a == b || exists i, j | 0 <= i < j < |a| :: a[i] != b[i] && a[j] != b[j]
  {
    DiffSetFacts(a, b);
    var s := DiffSet(a, b);
    if a == b {
      assert s == {};
    }
    if i, j :| 0 <= i < j < |a| && a[i] != b[i] && a[j] != b[j] {
      assert i in s && j in s - {i};
      assert |s - {i}| >= 1;
      assert |s| >= 2;
    }
    if DiffIndex(a, b) == -1 && a != b {
      assert s != {} by {
        var i :| 0 <= i < |a| && a[i] != b[i];
        assert i in s;
      }
      var x :| x in s;
      assert |s - {x}| != 0;
      var y :| y in s - {x};
      if x < y {
        assert 0 <= x < y < |a| && a[x] != b[x] && a[y] != b[y];
      } else {
        assert 0 <= y < x < |a| && a[y] != b[y] && a[x] != b[x];
      }
    }
  }

  // ---------------------------------------------------------------------------------------
  // asterisks_position_check, can_merge, merge

  /** `asterisks_position_check`: the "*" positions of the two vectors coincide. */
  predicate SameStars(a: Implicant, b: Implicant)
    requires |a| == |b|
  {
    forall i | 0 <= i < |a| :: (a[i] == Star) == (b[i] == Star)
  }

  /** `can_merge` */
  predicate CanMerge(a: Implicant, b: Implicant)
    requires |a| == |b|
  {
    if DiffIndex(a, b) == -1 then false
    else if Star in a || Star in b then SameStars(a, b)
    else true
  }

  /** Two vectors merge exactly when they differ in one position and have their "*" in the same places. */
  lemma CanMergeSpec(a: Implicant, b: Implicant)
    requires |a| == |b|
    ensures CanMerge(a, b) <==> DiffCount(a, b) == 1 && SameStars(a, b)
  {
    DiffSetFacts(a, b);
  }

  /** Vectors with their "*" in the same places have the same number of them. */
  lemma {:induction false} SameStarsStarCount(a: Implicant, b: Implicant)
    requires |a| == |b| && SameStars(a, b)
    ensures StarCount(a) == StarCount(b)
  {
    var n := |a|;
    if n > 0 {
      SameStarsStarCount(a[..n - 1], b[..n - 1]);
    }
  }

  /** `merge`: the first vector with "*" at the differing position. */
  function Merge(a: Implicant, b: Implicant, d: int): (r: Implicant)
    requires 0 <= d < |a|
    ensures r == a[d := Star]
  {
    a[..d] + [Star] + a[d + 1..]
  }

  /** The differing position of two mergeable vectors holds a bit, 0 in one and 1 in the other. */
  lemma MergeablePosition(a: Implicant, b: Implicant)
    requires |a| == |b| && CanMerge(a, b)
    ensures 0 <= DiffIndex(a, b) < |a|
    ensures var d := DiffIndex(a, b); a[d] != Star && b[d] != Star && a[d] != b[d]
    ensures forall i | 0 <= i < |a| && i != DiffIndex(a, b) :: a[i] == b[i]
    ensures SameStars(a, b)
  {
    OneBitDifferenceSpec(a, b);
    CanMergeSpec(a, b);
  }

  /** `can_merge` does not depend on the order of its arguments. */
  lemma CanMergeSymmetric(a: Implicant, b: Implicant)
    requires |a| == |b|
    ensures CanMerge(a, b) ==> CanMerge(b, a)
  {
    CanMergeSpec(a, b);
    CanMergeSpec(b, a);
    DiffSetFacts(a, b);
    DiffSetFacts(b, a);
    assert DiffSet(a, b) == DiffSet(b, a);
  }

  /** Mergeable vectors differ in their number of ones by exactly one. */
  lemma CanMergePopcount(a: Implicant, b: Implicant)
    requires |a| == |b|
    ensures CanMerge(a, b) ==> Popcount(b) == Popcount(a) + 1 || Popcount(a) == Popcount(b) + 1
  {
    if CanMerge(a, b) {
      MergeablePosition(a, b);
      var d := DiffIndex(a, b);
      assert b == a[d := b[d]];
      CountUpdate(a, d, b[d], One);
    }
  }

  // ---------------------------------------------------------------------------------------
  // correspon_to_bin and coverage

  /** `correspon_to_bin(c, imp)`: c agrees with imp at every position of imp that is not "*". */
  predicate Matches(c: Implicant, imp: Implicant)
  {
    forall i | 0 <= i < |c| && i < |imp| :: imp[i] == Star || c[i] == imp[i]
  }

  /**
   * The constituents a merged implicant covers are exactly those either parent covers.
   */
  lemma MergeCover(a: Implicant, b: Implicant, c: Implicant)
    requires |a| == |b| == |c| && StarFree(c) && CanMerge(a, b)
    ensures Matches(c, Merge(a, b, DiffIndex(a, b))) <==> Matches(c, a) || Matches(c, b)
  {
    MergeablePosition(a, b);
    var d := DiffIndex(a, b);
    if Matches(c, Merge(a, b, d)) {
      if c[d] == a[d] {
        assert Matches(c, a);
      } else {
        assert c[d] == b[d];
        assert Matches(c, b);
      }
    }
  }

  /**
   * Merging a vector of group w with one of group w + 1 keeps w ones and adds one "*":
   * the merged vector belongs under the lower group's key.
   */
  lemma MergeCounts(a: Implicant, b: Implicant)
    requires |a| == |b| && CanMerge(a, b) && Popcount(b) == Popcount(a) + 1
    ensures Popcount(Merge(a, b, DiffIndex(a, b))) == Popcount(a)
    ensures StarCount(Merge(a, b, DiffIndex(a, b))) == StarCount(a) + 1
    ensures |Merge(a, b, DiffIndex(a, b))| == |a|
  {
    MergeablePosition(a, b);
    var d := DiffIndex(a, b);
    assert b == a[d := b[d]];
    CountUpdate(a, d, b[d], One);
    CountUpdate(a, d, Star, One);
    CountUpdate(a, d, Star, Star);
  }
}
