/**
 * The specification of one round of `Minimizer.merge_groups`
 * (lab_3/src/corno/minimizer.py:27-72), the Quine–McCluskey consensus step.  A round scans
 * the popcount groups in ascending key order, merges every mergeable pair taken from groups
 * w and w + 1 into group w (skipping a merged vector already filed there), records both
 * parents as used, and finally re-files every unused implicant under its old key.
 *
 * `Round` is that scan written as folds in the source's loop order; the predicates at the
 * end describe a round's outcome by membership and the dictionary at the start of a round.
 */
module Rounds {
  import opened Ordered
  import opened Implicants

  predicate AllLength(xs: seq<Implicant>, n: nat)
  {
    forall x | x in xs :: |x| == n
  }

  /** Every implicant filed in the dictionary has n positions. */
  ghost predicate Uniform(g: Groups<Implicant>, n: nat)
  {
    forall k :: AllLength(Get(g, k), n)
  }

  predicate NoDuplicates(xs: seq<Implicant>)
  {
    forall i, j | 0 <= i < j < |xs| :: xs[i] != xs[j]
  }

  /** Some implicant filed under some key covers the constituent c. */
  ghost predicate CoveredIn(g: Groups<Implicant>, c: Implicant)
  {
    exists k, m | m in Get(g, k) :: Matches(c, m)
  }

  /** `changed`, `result_groups` and `used_constituents` while a round scans. */
  datatype RoundState = RoundState(result: Groups<Implicant>, used: set<Implicant>, changed: bool)

  const Start := RoundState([], {}, false)

  /** Lines 53-56: file m under key unless it is already there. */
  function AddMerged(res: Groups<Implicant>, key: int, m: Implicant): Groups<Implicant>
  {
    if m in Get(res, key) then res else Append(res, key, m)
  }

  /** The merge of a mergeable pair (lines 46-51); any other pair is left as its first vector. */
  function MergeOf(a: Implicant, b: Implicant): Implicant
    requires |a| == |b|
  {
    if CanMerge(a, b) then
      MergeablePosition(a, b);
      Merge(a, b, DiffIndex(a, b))
    else a
  }

  /** The body of the innermost loop (lines 43-59) for one pair a (group key), b (group key + 1). */
  function PairStep(st: RoundState, key: int, a: Implicant, b: Implicant): RoundState
    requires |a| == |b|
  {
    if CanMerge(a, b) then RoundState(AddMerged(st.result, key, MergeOf(a, b)), st.used + {a, b}, true)
    else st
  }

  /** The loop over the second group (line 42) for a fixed first implicant a. */
  function ScanSecond(st: RoundState, key: int, a: Implicant, bs: seq<Implicant>): RoundState
    requires AllLength(bs, |a|)
  {
    if |bs| == 0 then st
    else PairStep(ScanSecond(st, key, a, bs[..|bs| - 1]), key, a, bs[|bs| - 1])
  }

  /** The loop over the first group (line 41). */
  function ScanFirst(st: RoundState, key: int, firsts: seq<Implicant>, seconds: seq<Implicant>, n: nat): RoundState
    requires AllLength(firsts, n) && AllLength(seconds, n)
  {
    if |firsts| == 0 then st
    else ScanSecond(ScanFirst(st, key, firsts[..|firsts| - 1], seconds, n), key, firsts[|firsts| - 1], seconds)
  }

  /** One key of the loop over the sorted keys (lines 39-40): scanned only when group key + 1 exists. */
  function ScanKey(st: RoundState, g: Groups<Implicant>, key: int, n: nat): RoundState
    requires Uniform(g, n)
  {
    if Has(g, key + 1) then ScanFirst(st, key, Get(g, key), Get(g, key + 1), n) else st
  }

  /** The loop over the sorted keys (line 39). */
  function ScanKeys(st: RoundState, g: Groups<Implicant>, keys: seq<int>, n: nat): RoundState
    requires Uniform(g, n)
  {
    if |keys| == 0 then st
    else ScanKey(ScanKeys(st, g, keys[..|keys| - 1], n), g, keys[|keys| - 1], n)
  }

  /** Re-filing the unused implicants of one group (lines 64-68). */
  function KeepList(res: Groups<Implicant>, used: set<Implicant>, key: int, cs: seq<Implicant>): Groups<Implicant>
  {
    if |cs| == 0 then res
    else
      var r := KeepList(res, used, key, cs[..|cs| - 1]);
      if cs[|cs| - 1] !in used then Append(r, key, cs[|cs| - 1]) else r
  }

  /** Re-filing the unused implicants of every group, in the dictionary's order (line 63). */
  function KeepUnused(res: Groups<Implicant>, used: set<Implicant>, g: Groups<Implicant>): Groups<Implicant>
  {
    if |g| == 0 then res
    else KeepList(KeepUnused(res, used, g[..|g| - 1]), used, g[|g| - 1].0, g[|g| - 1].1)
  }

  /** One pass of the `while changed` loop: the new dictionary and whether it merged anything. */
  function Round(g: Groups<Implicant>, n: nat): (Groups<Implicant>, bool)
    requires Uniform(g, n)
  {
    var st := ScanKeys(Start, g, SortedKeys(g), n);
    (KeepUnused(st.result, st.used, g), st.changed)
  }

  /** m is the merge of a mergeable pair drawn from groups k and k + 1 of g. */
  ghost predicate MergedFrom(g: Groups<Implicant>, k: int, m: Implicant)
  {
    exists x, y | x in Get(g, k) && y in Get(g, k + 1) && |x| == |y| && CanMerge(x, y) :: m == MergeOf(x, y)
  }

  /** p belongs to a mergeable pair drawn from groups k and k + 1 of g. */
  ghost predicate UsedFrom(g: Groups<Implicant>, k: int, p: Implicant)
  {
    exists x, y | x in Get(g, k) && y in Get(g, k + 1) && |x| == |y| && CanMerge(x, y) :: p == x || p == y
  }

  /** Some implicant of group k of g merges with some implicant of group k + 1. */
  ghost predicate AnyMerge(g: Groups<Implicant>, k: int)
  {
    exists x, y | x in Get(g, k) && y in Get(g, k + 1) :: |x| == |y| && CanMerge(x, y)
  }

  /** Lines 53-56 never file a merged vector twice under the same key. */
  ghost predicate ListsDistinct(res: Groups<Implicant>)
  {
    DistinctKeys(res) && forall k :: NoDuplicates(Get(res, k))
  }

  /** x has n positions and popcount k: it is filed under the right key. */
  predicate Keyed(x: Implicant, n: nat, k: int)
  {
    |x| == n && Popcount(x) == k
  }

  /** x has popcount k and at most r stars. */
  predicate Bounded(x: Implicant, k: int, r: nat)
  {
    Popcount(x) == k && StarCount(x) <= r
  }

  /**
   * The dictionary at the start of round r (counting from 0) of a minimisation of
   * n-variable constituents: distinct keys, every implicant of length n filed under its
   * popcount with at most r stars, and only implicants with exactly r stars still mergeable
   * with a neighbour group.
   */
  ghost predicate LevelInv(g: Groups<Implicant>, n: nat, r: nat)
  {
    // bound to a name so that a caller establishes the invariant as one fact
    var holds := r <= n
    && DistinctKeys(g)
    && Uniform(g, n)
    && (forall k, x | x in Get(g, k) :: Bounded(x, k, r))
    && (forall k, x, y | x in Get(g, k) && y in Get(g, k + 1) && |x| == |y| && CanMerge(x, y) :: StarCount(x) == r);
    holds
  }

  /** The scan of a round over g, by membership: merges of neighbour groups, filed under the lower key. */
  ghost predicate ScanOf(s: RoundState, g: Groups<Implicant>)
  {
    var holds := (forall k, m {:trigger m in Get(s.result, k)} :: m in Get(s.result, k) <==> MergedFrom(g, k, m))
    && (forall p {:trigger p in s.used} :: p in s.used <==> exists k :: UsedFrom(g, k, p))
    && (s.changed <==> exists k :: AnyMerge(g, k))
    && (!s.changed ==> s == Start)
    && ListsDistinct(s.result);
    holds
  }

  /** x has n positions, popcount k and r stars. */
  predicate Shaped(x: Implicant, n: nat, k: int, r: nat)
  {
    |x| == n && Popcount(x) == k && StarCount(x) == r
  }
}
