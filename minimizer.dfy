/**
 * `Minimizer.merge_groups` (lab_3/src/corno/minimizer.py:27-72) as the source writes it:
 * a `while changed` loop around nested loops over the popcount groups, proved to compute
 * the folds of `Rounds` and the fixpoint of `Merging`.  Each loop of a round is a method
 * of its own, named after the fold it computes.
 */
module Minimizer {
  import opened Ordered
  import opened Implicants
  import opened Rounds
  import opened Merging
  import opened TruthTables

  /** The loop over the second group (lines 42-59) for the first implicant a. */
  method ScanSeconds(st: RoundState, key: int, a: Implicant, seconds: seq<Implicant>) returns (out: RoundState)
    requires AllLength(seconds, |a|)
    ensures out == ScanSecond(st, key, a, seconds)
  {
    var res, used, changed := st.result, st.used, st.changed;
    var j := 0;
    while j < |seconds|
      invariant 0 <= j <= |seconds|
      invariant RoundState(res, used, changed) == ScanSecond(st, key, a, seconds[..j])
    {
      var b := seconds[j];
      assert seconds[..j + 1][..j] == seconds[..j];
      if CanMerge(a, b) {
        MergeablePosition(a, b);
        var d := IsOneBitDifferent(a, b);
        var m := Merge(a, b, d);
        if m !in Get(res, key) {
          res := Append(res, key, m);
        }
        used := used + {a, b};
        changed := true;
      }
      j := j + 1;
    }
    assert seconds[..j] == seconds;
    out := RoundState(res, used, changed);
  }

  /** The loop over the first group (line 41). */
  method ScanFirsts(st: RoundState, key: int, firsts: seq<Implicant>, seconds: seq<Implicant>, ghost n: nat)
    returns (out: RoundState)
    requires AllLength(firsts, n) && AllLength(seconds, n)
    ensures out == ScanFirst(st, key, firsts, seconds, n)
  {
    out := st;
    var i := 0;
    while i < |firsts|
      invariant 0 <= i <= |firsts|
      invariant out == ScanFirst(st, key, firsts[..i], seconds, n)
    {
      assert firsts[..i + 1][..i] == firsts[..i];
      out := ScanSeconds(out, key, firsts[i], seconds);
      i := i + 1;
    }
    assert firsts[..i] == firsts;
  }

  /** The loop over the sorted keys (lines 39-40). */
  method ScanGroups(g: Groups<Implicant>, ghost n: nat) returns (out: RoundState)
    requires Uniform(g, n)
    ensures out == ScanKeys(Start, g, SortedKeys(g), n)
  {
    var keys := SortedKeys(g);
    out := Start;
    var ki := 0;
    while ki < |keys|
      invariant 0 <= ki <= |keys|
      invariant out == ScanKeys(Start, g, keys[..ki], n)
    {
      var key := keys[ki];
      assert keys[..ki + 1][..ki] == keys[..ki];
      if Has(g, key + 1) {
        assert AllLength(Get(g, key), n) && AllLength(Get(g, key + 1), n);
        out := ScanFirsts(out, key, Get(g, key), Get(g, key + 1), n);
      }
      ki := ki + 1;
    }
    assert keys[..ki] == keys;
  }

  /** Re-filing the unused implicants of one group (lines 64-68). */
  method KeepGroup(res: Groups<Implicant>, used: set<Implicant>, groupNum: int, cs: seq<Implicant>)
    returns (out: Groups<Implicant>)
    ensures out == KeepList(res, used, groupNum, cs)
  {
    out := res;
    var ci := 0;
    while ci < |cs|
      invariant 0 <= ci <= |cs|
      invariant out == KeepList(res, used, groupNum, cs[..ci])
    {
      assert cs[..ci + 1][..ci] == cs[..ci];
      if cs[ci] !in used {
        out := Append(out, groupNum, cs[ci]);
      }
      ci := ci + 1;
    }
    assert cs[..ci] == cs;
  }

  /** The loop over every group in the dictionary's order (line 63). */
  method KeepGroups(res: Groups<Implicant>, used: set<Implicant>, g: Groups<Implicant>)
    returns (out: Groups<Implicant>)
    ensures out == KeepUnused(res, used, g)
  {
    out := res;
    var gi := 0;
    while gi < |g|
      invariant 0 <= gi <= |g|
      invariant out == KeepUnused(res, used, g[..gi])
    {
      assert g[..gi + 1][..gi] == g[..gi];
      out := KeepGroup(out, used, g[gi].0, g[gi].1);
      gi := gi + 1;
    }
    assert g[..gi] == g;
  }

  /** One pass of the `while changed` loop (lines 35-68). */
  method MergeRound(g: Groups<Implicant>, ghost n: nat) returns (next: Groups<Implicant>, changed: bool)
    requires Uniform(g, n)
    ensures (next, changed) == Round(g, n)
  {
    var st := ScanGroups(g, n);
    next := KeepGroups(st.result, st.used, g);
    changed := st.changed;
  }

  /**
   * `merge_groups`: rounds until one merges nothing, then every implicant of the last
   * dictionary in its order.  The input is the constituents grouped by popcount.
   */
  method MergeGroups(pnf: Groups<Implicant>, ghost n: nat) returns (imps: seq<Implicant>)
    requires LevelInv(pnf, n, 0)
    ensures imps == Flatten(Fixpoint(pnf, n, 0))
  {
    var groups := pnf;
    ghost var r: nat := 0;
    var changed := true;
    while changed
      invariant changed ==> LevelInv(groups, n, r) && Fixpoint(groups, n, r) == Fixpoint(pnf, n, 0)
      invariant !changed ==> groups == Fixpoint(pnf, n, 0)
      decreases if changed then n - r + 1 else 0
    {
      ghost var before := groups;
      RoundNext(groups, n, r);
      groups, changed := MergeRound(groups, n);
      if changed {
        r := r + 1;
      }
    }
    imps := Flatten(groups);
  }

  // ---------------------------------------------------------------------------------------
  // What `merge_groups` returns for the popcount groups of a truth table

  /** Every constituent is a bit vector of n positions. */
  predicate BitRows(cs: seq<seq<int>>, n: nat)
  {
    forall c | c in cs :: |c| == n && IsBitVector(c)
  }

  /** Constituent rows of the truth table as implicant vectors. */
  function RowsAsImplicants(cs: seq<seq<int>>): (r: seq<Implicant>)
    ensures |r| == |cs|
    ensures forall i | 0 <= i < |cs| :: r[i] == FromRow(cs[i])
  {
    seq(|cs|, i requires 0 <= i < |cs| => FromRow(cs[i]))
  }

  /** The dictionary `group_pdnf` / `group_pcnf` builds, with its rows as implicant vectors. */
  function GroupsAsImplicants(g: Groups<seq<int>>): (r: Groups<Implicant>)
    ensures |r| == |g|
    ensures forall i | 0 <= i < |g| :: r[i] == (g[i].0, RowsAsImplicants(g[i].1))
  {
    seq(|g|, i requires 0 <= i < |g| => (g[i].0, RowsAsImplicants(g[i].1)))
  }

  /** Converting the rows keeps every key and converts the list filed under it. */
  lemma {:induction false} GroupsAsImplicantsGet(g: Groups<seq<int>>, k: int)
    ensures Get(GroupsAsImplicants(g), k) == RowsAsImplicants(Get(g, k))
  {
    if |g| > 0 && g[0].0 != k {
      assert GroupsAsImplicants(g)[1..] == GroupsAsImplicants(g[1..]);
      GroupsAsImplicantsGet(g[1..], k);
    }
  }

  /** A row of zeros and ones has as many `One` positions as it has ones. */
  lemma {:induction false} PopcountOfRow(row: seq<int>)
    requires IsBitVector(row)
    ensures Popcount(FromRow(row)) == CountOnes(row)
  {
    if |row| > 0 {
      var p := row[..|row| - 1];
      PopcountOfRow(p);
      assert FromRow(row)[..|row| - 1] == FromRow(p);
    }
  }

  /** A star-free vector is covered by a constituent exactly when it is that constituent. */
  lemma MatchesRow(v: Implicant, row: seq<int>)
    requires StarFree(v) && |v| == |row|
    ensures Matches(v, FromRow(row)) <==> v == FromRow(row)
  {
  }

  /** An implicant of the converted popcount groups is a constituent, filed under its number of ones. */
  lemma ConstituentMember(groups: Groups<seq<int>>, cs: seq<seq<int>>, n: nat, k: int, m: Implicant)
      returns (x: seq<int>)
    requires GroupsOf(groups, cs) && BitRows(cs, n) && m in Get(GroupsAsImplicants(groups), k)
    ensures x in cs && m == FromRow(x)
    ensures |m| == n && Bounded(m, k, 0)
  {
    GroupsAsImplicantsGet(groups, k);
    var i :| 0 <= i < |Get(groups, k)| && m == FromRow(Get(groups, k)[i]);
    x := Get(groups, k)[i];
    WithOnesMembers(cs, k, x);
    PopcountOfRow(x);
    StarFreeHasNoStars(m);
  }

  /**
   * The popcount groups of bit-vector constituents of n variables are a valid start of the
   * rounds: every constituent filed under its number of ones and none carrying a "*".
   */
  lemma ConstituentGroupsLevel(groups: Groups<seq<int>>, cs: seq<seq<int>>, n: nat)
    requires GroupsOf(groups, cs) && BitRows(cs, n)
    ensures LevelInv(GroupsAsImplicants(groups), n, 0)
  {
    var g := GroupsAsImplicants(groups);
    forall k, m | m in Get(g, k) ensures |m| == n && Bounded(m, k, 0) {
      var x := ConstituentMember(groups, cs, n, k, m);
    }
    forall k ensures AllLength(Get(g, k), n) {
      forall m | m in Get(g, k) ensures |m| == n {
        assert |m| == n && Bounded(m, k, 0);
      }
    }
    forall k, x, y | x in Get(g, k) && y in Get(g, k + 1) && |x| == |y| && CanMerge(x, y)
      ensures StarCount(x) == 0
    {
      assert Bounded(x, k, 0);
    }
  }

  /**
   * The implicants `merge_groups` returns for the popcount groups of the constituents cs
   * cover a vector of n bits exactly when it is one of the constituents.
   */
  lemma MergedCoverage(groups: Groups<seq<int>>, cs: seq<seq<int>>, n: nat, v: Implicant)
    requires GroupsOf(groups, cs) && BitRows(cs, n) && |v| == n && StarFree(v)
    ensures LevelInv(GroupsAsImplicants(groups), n, 0)
    ensures (exists m | m in Flatten(Fixpoint(GroupsAsImplicants(groups), n, 0)) :: Matches(v, m))
      <==> v in RowsAsImplicants(cs)
  {
    ConstituentGroupsLevel(groups, cs, n);
    var h := Fixpoint(GroupsAsImplicants(groups), n, 0);
    if m :| m in Flatten(h) && Matches(v, m) {
      CoveredIsConstituent(groups, cs, n, v, m);
    }
    if v in RowsAsImplicants(cs) {
      var j :| 0 <= j < |cs| && RowsAsImplicants(cs)[j] == v;
      var m := ConstituentIsCovered(groups, cs, n, j);
    }
  }

  lemma CoveredIsConstituent(groups: Groups<seq<int>>, cs: seq<seq<int>>, n: nat, v: Implicant, m: Implicant)
    requires GroupsOf(groups, cs) && BitRows(cs, n) && |v| == n && StarFree(v)
    requires LevelInv(GroupsAsImplicants(groups), n, 0)
    requires m in Flatten(Fixpoint(GroupsAsImplicants(groups), n, 0)) && Matches(v, m)
    ensures v in RowsAsImplicants(cs)
  {
    var g := GroupsAsImplicants(groups);
    var h := Fixpoint(g, n, 0);
    FixpointShape(g, n, 0);
    FlattenMembership(h, m);
    var k0 :| Has(h, k0) && m in Get(h, k0);
    var k, p := FixpointSound(g, n, 0, v, k0, m);
    var x := ConstituentMember(groups, cs, n, k, p);
    MatchesRow(v, x);
    var j :| 0 <= j < |cs| && cs[j] == x;
    assert RowsAsImplicants(cs)[j] == v;
  }

  lemma ConstituentIsCovered(groups: Groups<seq<int>>, cs: seq<seq<int>>, n: nat, j: nat) returns (m: Implicant)
    requires GroupsOf(groups, cs) && BitRows(cs, n) && j < |cs|
    requires LevelInv(GroupsAsImplicants(groups), n, 0)
    ensures m in Flatten(Fixpoint(GroupsAsImplicants(groups), n, 0)) && Matches(FromRow(cs[j]), m)
  {
    var g := GroupsAsImplicants(groups);
    var v := FromRow(cs[j]);
    ConstituentFiled(groups, cs, j);
    assert cs[j] in cs;
    assert CoverAt(g, n, 0, v, CountOnes(cs[j]), v);
    var k;
    k, m := FixpointComplete(g, n, 0, v, CountOnes(cs[j]), v);
    GetInFlatten(Fixpoint(g, n, 0), k, m);
  }

  /** Every constituent is filed, as an implicant, under its number of ones. */
  lemma ConstituentFiled(groups: Groups<seq<int>>, cs: seq<seq<int>>, j: nat)
    requires GroupsOf(groups, cs) && j < |cs|
    ensures FromRow(cs[j]) in Get(GroupsAsImplicants(groups), CountOnes(cs[j]))
  {
    var x := cs[j];
    var k := CountOnes(x);
    WithOnesMembers(cs, k, x);
    GroupsAsImplicantsGet(groups, k);
    var i :| 0 <= i < |Get(groups, k)| && Get(groups, k)[i] == x;
    assert RowsAsImplicants(Get(groups, k))[i] == FromRow(x);
  }

  /** No two implicants `merge_groups` returns can be merged with each other. */
  lemma MergedPrime(g: Groups<Implicant>, n: nat, r: nat, x: Implicant, y: Implicant)
    requires LevelInv(g, n, r)
    requires x in Flatten(Fixpoint(g, n, r)) && y in Flatten(Fixpoint(g, n, r))
    ensures |x| == |y| == n && !CanMerge(x, y)
  {
    var h := Fixpoint(g, n, r);
    FixpointShape(g, n, r);
    FixpointPrime(g, n, r);
    FlattenMembership(h, x);
    FlattenMembership(h, y);
    var kx :| Has(h, kx) && x in Get(h, kx);
    var ky :| Has(h, ky) && y in Get(h, ky);
    assert Keyed(x, n, kx) && Keyed(y, n, ky);
    NoMergeAcross(h, n, x, kx, y, ky);
  }

  /** In groups where no two neighbouring keys merge, no two filed implicants merge. */
  lemma NoMergeAcross(h: Groups<Implicant>, n: nat, x: Implicant, kx: int, y: Implicant, ky: int)
    requires forall k :: !AnyMerge(h, k)
    requires x in Get(h, kx) && y in Get(h, ky) && Keyed(x, n, kx) && Keyed(y, n, ky)
    ensures !CanMerge(x, y)
  {
    MergeWitness(h, n, x, kx, y, ky);
  }

  /** Two filed implicants that merge sit under neighbouring keys, which then merge. */
  lemma MergeWitness(h: Groups<Implicant>, n: nat, x: Implicant, kx: int, y: Implicant, ky: int)
    requires x in Get(h, kx) && y in Get(h, ky) && Keyed(x, n, kx) && Keyed(y, n, ky)
    ensures CanMerge(x, y) ==> AnyMerge(h, kx) || AnyMerge(h, ky)
  {
    CanMergePopcount(x, y);
    CanMergeSymmetric(x, y);
    if CanMerge(x, y) {
      if ky == kx + 1 {
        assert y in Get(h, kx + 1) && |x| == |y|;
      } else {
        assert x in Get(h, ky + 1) && |y| == |x| && CanMerge(y, x);
      }
    }
  }

  /**
   * What `merge_groups(group_pdnf())` returns for the constituents cs (the rows without
   * their value column) of an n-variable truth table.
   */
  function Minimized(cs: seq<seq<int>>, n: nat): (r: seq<Implicant>)
    requires BitRows(cs, n)
    ensures forall k | 0 <= k < |r| :: |r[k]| == n
  {
    GroupedByOnesSpec(cs);
    var g := GroupsAsImplicants(GroupedByOnes(cs));
    ConstituentGroupsLevel(GroupedByOnes(cs), cs, n);
    MergedLengths(g, n, 0);
    Flatten(Fixpoint(g, n, 0))
  }

  /** Every implicant the rounds reach has n positions. */
  lemma MergedLengths(g: Groups<Implicant>, n: nat, r: nat)
    requires LevelInv(g, n, r)
    ensures forall k | 0 <= k < |Flatten(Fixpoint(g, n, r))| :: |Flatten(Fixpoint(g, n, r))[k]| == n
  {
    var h := Fixpoint(g, n, r);
    FixpointShape(g, n, r);
    forall k | 0 <= k < |Flatten(h)| ensures |Flatten(h)[k]| == n {
      var x := Flatten(h)[k];
      FlattenMembership(h, x);
      var w :| Has(h, w) && x in Get(h, w);
      assert Keyed(x, n, w);
    }
  }

  /** The vector that puts a 0 bit in place of every "*" of m; m covers it. */
  function FillStars(m: Implicant): (v: Implicant)
    ensures |v| == |m| && StarFree(v) && Matches(v, m)
  {
    seq(|m|, i requires 0 <= i < |m| => if m[i] == Star then Zero else m[i])
  }

  /** `merge_groups` returns no implicant exactly when there are no constituents. */
  lemma MinimizedEmpty(cs: seq<seq<int>>, n: nat)
    requires BitRows(cs, n)
    ensures |Minimized(cs, n)| == 0 <==> |cs| == 0
  {
    var imps := Minimized(cs, n);
    if |imps| > 0 {
      var v := FillStars(imps[0]);
      MinimizedCoverage(cs, n, v);
    }
    if |cs| > 0 {
      var v := FromRow(cs[0]);
      assert cs[0] in cs;
      MinimizedCoverage(cs, n, v);
      assert v in RowsAsImplicants(cs) by {
        assert RowsAsImplicants(cs)[0] == v;
      }
    }
  }

  /** The minimised implicants cover a vector of n bits exactly when it is a constituent. */
  lemma MinimizedCoverage(cs: seq<seq<int>>, n: nat, v: Implicant)
    requires BitRows(cs, n) && |v| == n && StarFree(v)
    ensures (exists m | m in Minimized(cs, n) :: Matches(v, m)) <==> v in RowsAsImplicants(cs)
  {
    GroupedByOnesSpec(cs);
    MergedCoverage(GroupedByOnes(cs), cs, n, v);
  }

  /** The minimised implicants have n positions and no two of them can be merged. */
  lemma MinimizedPrime(cs: seq<seq<int>>, n: nat, x: Implicant, y: Implicant)
    requires BitRows(cs, n) && x in Minimized(cs, n) && y in Minimized(cs, n)
    ensures |x| == |y| == n && !CanMerge(x, y)
  {
    GroupedByOnesSpec(cs);
    ConstituentGroupsLevel(GroupedByOnes(cs), cs, n);
    MergedPrime(GroupsAsImplicants(GroupedByOnes(cs)), n, 0, x, y);
  }

  /** The start of both table minimisations: `merge_groups` over `group_pdnf()` or `group_pcnf()`. */
  method MergeConstituents(table: seq<seq<int>>, indices: seq<nat>, ghost n: nat) returns (imps: seq<Implicant>)
    requires forall k | 0 <= k < |indices| :: indices[k] < |table|
    requires BitRows(Constituents(table, indices), n)
    ensures imps == Minimized(Constituents(table, indices), n)
  {
    var cs := Constituents(table, indices);
    var groups := GroupByOnes(table, indices);
    ConstituentGroupsLevel(groups, cs, n);
    imps := MergeGroups(GroupsAsImplicants(groups), n);
  }
}
