/**
 * The two table-based minimisations of `Minimizer` (lab_3/src/corno/minimizer.py:182-282):
 * the chart method keeps the essential implicants, the computational method drops redundant
 * implicants one at a time while the rest still cover every constituent.  Both start from
 * `merge_groups` over the popcount groups of the PDNF (or PCNF) constituents.
 */
module Minimization {
  import opened Wrappers
  import opened Lists
  import opened Text
  import opened Implicants
  import opened Rounds
  import opened TruthTables
  import opened Minimizer
  import opened Chart

  /** The constituents of an n-variable table listed by `indices`, as implicant vectors. */
  function TargetsOf(table: seq<seq<int>>, indices: seq<nat>): seq<Implicant>
    requires forall k | 0 <= k < |indices| :: indices[k] < |table|
  {
    RowsAsImplicants(Constituents(table, indices))
  }

  /** The implicants listed by `chosen`, in that order. */
  function Pick(imps: seq<Implicant>, chosen: seq<int>): (r: seq<Implicant>)
    requires forall k | 0 <= k < |chosen| :: 0 <= chosen[k] < |imps|
    ensures |r| == |chosen|
  {
    seq(|chosen|, k requires 0 <= k < |chosen| => imps[chosen[k]])
  }

  // ---------------------------------------------------------------------------------------
  // computational_table_minimization

  /** No constituent of a minimisation is left without an "X" in the chart. */
  lemma EveryColumnCovered(cs: seq<seq<int>>, n: nat, j: nat)
    requires BitRows(cs, n) && j < |cs|
    ensures Covering(Minimized(cs, n), RowsAsImplicants(cs)[j]) != {}
  {
    var imps := Minimized(cs, n);
    var v := RowsAsImplicants(cs)[j];
    assert cs[j] in cs;
    MinimizedCoverage(cs, n, v);
    var m :| m in imps && Matches(v, m);
    var i :| 0 <= i < |imps| && imps[i] == m;
    assert i in Covering(imps, v);
  }

  /**
   * Over the chart of implicants that leave no constituent uncovered, `found_unique_implicant`
   * returns exactly the essential implicants.
   */
  lemma FoundEssential(imps: seq<Implicant>, targets: seq<Implicant>, matrix: seq<seq<string>>, unique: set<int>)
    requires |imps| > 0 && IsChart(matrix, imps, targets)
    requires forall j | 0 <= j < |targets| :: Covering(imps, targets[j]) != {}
    requires forall i :: i in unique <==> exists j | 1 <= j < |matrix[0]| :: Contributes(matrix, j, i)
    ensures forall i :: i in unique <==> Essential(imps, targets, i)
    ensures forall i | i in unique :: 0 <= i < |imps|
  {
    forall i ensures i in unique <==> Essential(imps, targets, i) {
      UniqueAreEssential(matrix, imps, targets, i);
    }
    forall i | i in unique ensures 0 <= i < |imps| {
      var j :| 0 <= j < |targets| && Covering(imps, targets[j]) == {i};
      assert i in Covering(imps, targets[j]);
    }
  }

  /**
   * The chart part of `computational_table_minimization` (lines 197-218): build the chart,
   * find the essential implicants and render them in the iteration order of the set.
   */
  method EssentialTerms(variables: seq<string>, imps: seq<Implicant>, targets: seq<Implicant>, isPdnf: bool)
      returns (r: Result<string, string>, ghost chosen: seq<int>)
    requires forall k | 0 <= k < |imps| :: |imps[k]| <= |variables|
    requires forall j | 0 <= j < |targets| :: Covering(imps, targets[j]) != {}
    ensures r.Err? <==> |imps| == 0
    ensures r.Ok? ==>
      && Distinct(chosen)
      && (forall i :: i in chosen <==> Essential(imps, targets, i))
      && (forall k | 0 <= k < |chosen| :: 0 <= chosen[k] < |imps|)
      && r.value == Render(variables, Pick(imps, chosen), isPdnf)
  {
    var matrix := CreateImplicantMatrix(imps, targets);
    ChartRectangular(matrix, imps, targets);
    var found := FoundUniqueImplicant(matrix);
    if found.Err? {
      return Err("IndexError"), [];
    }
    FoundEssential(imps, targets, matrix, found.value);
    var rendered;
    rendered, chosen := SetTerms(variables, imps, found.value, isPdnf);
    r := Ok(rendered);
  }

  /**
   * The comprehension over the set of essential indices (lines 217-218): one term per index,
   * in the set's iteration order, which `chosen` records.
   */
  method SetTerms(variables: seq<string>, imps: seq<Implicant>, s: set<int>, isPdnf: bool)
      returns (r: string, ghost chosen: seq<int>)
    requires forall k | 0 <= k < |imps| :: |imps[k]| <= |variables|
    requires forall i | i in s :: 0 <= i < |imps|
    ensures Distinct(chosen)
    ensures forall i :: i in chosen <==> i in s
    ensures forall k | 0 <= k < |chosen| :: 0 <= chosen[k] < |imps|
    ensures r == Render(variables, Pick(imps, chosen), isPdnf)
  {
    var rest := s;
    var terms: seq<string> := [];
    chosen := [];
    while rest != {}
      invariant forall i :: i in s <==> i in rest || i in chosen
      invariant forall i | i in chosen :: i !in rest
      invariant Distinct(chosen)
      invariant forall k | 0 <= k < |chosen| :: 0 <= chosen[k] < |imps|
      invariant |terms| == |chosen|
      invariant forall k | 0 <= k < |chosen| :: terms[k] == Parenthesized(variables, imps[chosen[k]], isPdnf)
      decreases |rest|
    {
      assert (forall y :: y !in rest) ==> rest == {};
      var i :| i in rest;
      terms := terms + [Parenthesized(variables, imps[i], isPdnf)];
      chosen := chosen + [i];
      rest := rest - {i};
    }
    assert terms == seq(|chosen|, k requires 0 <= k < |chosen| => Parenthesized(variables, Pick(imps, chosen)[k], isPdnf));
    r := Join(terms, if isPdnf then "|" else "&");
  }

  /**
   * `computational_table_minimization`: the essential implicants of the chart, each as a
   * parenthesised term, joined by "|" (PDNF) or "&" (PCNF).  Without constituents the chart
   * has no first row and the source raises IndexError.  The terms follow the iteration order
   * of a Python set, which `chosen` records.
   */
  method TableMinimization(variables: seq<string>, table: seq<seq<int>>, indices: seq<nat>, isPdnf: bool)
      returns (r: Result<string, string>, ghost chosen: seq<int>)
    requires forall k | 0 <= k < |indices| :: indices[k] < |table|
    requires BitRows(Constituents(table, indices), |variables|)
    ensures r.Err? <==> |indices| == 0
    ensures r.Ok? ==>
      var imps := Minimized(Constituents(table, indices), |variables|);
      && Distinct(chosen)
      && (forall i :: i in chosen <==> Essential(imps, TargetsOf(table, indices), i))
      && (forall k | 0 <= k < |chosen| :: 0 <= chosen[k] < |imps|)
      && r.value == Render(variables, Pick(imps, chosen), isPdnf)
  {
    ghost var cs := Constituents(table, indices);
    var imps := MergeConstituents(table, indices, |variables|);
    var targets := RowsAsImplicants(Constituents(table, indices));
    MinimizedEmpty(cs, |variables|);
    forall j | 0 <= j < |targets| ensures Covering(imps, targets[j]) != {} {
      EveryColumnCovered(cs, |variables|, j);
    }
    r, chosen := EssentialTerms(variables, imps, targets, isPdnf);
  }

  // ---------------------------------------------------------------------------------------
  // computational_minimization

  /** `[c for c in constituents if correspon_to_bin(c, imp)]` */
  function CoveredBy(cs: seq<Implicant>, imp: Implicant): (r: seq<Implicant>)
    ensures forall c :: c in r <==> c in cs && Matches(c, imp)
  {
    if |cs| == 0 then []
    else CoveredBy(cs[..|cs| - 1], imp) + (if Matches(cs[|cs| - 1], imp) then [cs[|cs| - 1]] else [])
  }

  /** Some implicant other than cur (by value) covers c. */
  predicate CoveredByOther(imps: seq<Implicant>, cur: Implicant, c: Implicant)
  {
    exists k | 0 <= k < |imps| :: imps[k] != cur && Matches(c, imps[k])
  }

  /** cur covers some constituent, and every constituent it covers is covered by another implicant. */
  predicate Redundant(imps: seq<Implicant>, cs: seq<Implicant>, cur: Implicant)
  {
    CoveredBy(cs, cur) != [] && forall c | c in CoveredBy(cs, cur) :: CoveredByOther(imps, cur, c)
  }

  /** The first position at or after `from` whose implicant is redundant. */
  function FirstRedundant(imps: seq<Implicant>, cs: seq<Implicant>, from: nat): (r: Option<nat>)
    requires from <= |imps|
    ensures r.Some? ==> from <= r.value < |imps| && Redundant(imps, cs, imps[r.value])
    ensures r.None? ==> forall k | from <= k < |imps| :: !Redundant(imps, cs, imps[k])
    decreases |imps| - from
  {
    if from == |imps| then None
    else if Redundant(imps, cs, imps[from]) then Some(from)
    else FirstRedundant(imps, cs, from + 1)
  }

  /** The passes of the `while changed` loop: remove the first redundant implicant until none is left. */
  function Prune(imps: seq<Implicant>, cs: seq<Implicant>): seq<Implicant>
    decreases |imps|
  {
    match FirstRedundant(imps, cs, 0)
    case None => imps
    case Some(i) => Prune(RemoveFirst(imps, imps[i]), cs)
  }

  /** Each pass drops at most one implicant and keeps the others: the result is a sub-multiset. */
  lemma {:induction false} PruneShrinks(imps: seq<Implicant>, cs: seq<Implicant>)
    ensures multiset(Prune(imps, cs)) <= multiset(imps)
    decreases |imps|
  {
    match FirstRedundant(imps, cs, 0)
    case None =>
    case Some(i) =>
      assert imps[i] in imps;
      PruneShrinks(RemoveFirst(imps, imps[i]), cs);
  }

  /** No implicant of the result is redundant. */
  lemma {:induction false} PruneIrredundant(imps: seq<Implicant>, cs: seq<Implicant>, cur: Implicant)
    requires cur in Prune(imps, cs)
    ensures !Redundant(Prune(imps, cs), cs, cur)
    decreases |imps|
  {
    match FirstRedundant(imps, cs, 0)
    case None =>
      var k :| 0 <= k < |imps| && imps[k] == cur;
    case Some(i) =>
      assert imps[i] in imps;
      PruneIrredundant(RemoveFirst(imps, imps[i]), cs, cur);
  }

  /** Every constituent of cs is covered by some implicant of imps. */
  ghost predicate CoversAll(imps: seq<Implicant>, cs: seq<Implicant>)
  {
    forall c | c in cs :: exists m | m in imps :: Matches(c, m)
  }

  /** Removing a redundant implicant keeps every constituent covered. */
  lemma RemoveRedundantCovers(imps: seq<Implicant>, cs: seq<Implicant>, cur: Implicant)
    requires CoversAll(imps, cs) && cur in imps && Redundant(imps, cs, cur)
    ensures CoversAll(RemoveFirst(imps, cur), cs)
  {
    var rest := RemoveFirst(imps, cur);
    forall c | c in cs ensures exists m | m in rest :: Matches(c, m) {
      var w :| w in imps && Matches(c, w);
      if w == cur {
        assert c in CoveredBy(cs, cur);
        var k :| 0 <= k < |imps| && imps[k] != cur && Matches(c, imps[k]);
        w := imps[k];
      }
      assert w in multiset(imps) && w != cur;
      assert w in multiset(rest);
    }
  }

  /** The passes keep every constituent covered. */
  lemma {:induction false} PruneCovers(imps: seq<Implicant>, cs: seq<Implicant>)
    requires CoversAll(imps, cs)
    ensures CoversAll(Prune(imps, cs), cs)
    decreases |imps|
  {
    match FirstRedundant(imps, cs, 0)
    case None =>
    case Some(i) =>
      RemoveRedundantCovers(imps, cs, imps[i]);
      PruneCovers(RemoveFirst(imps, imps[i]), cs);
  }

  /** An implicant that covers no constituent is never removed. */
  lemma {:induction false} PruneKeepsIdle(imps: seq<Implicant>, cs: seq<Implicant>, idle: Implicant)
    requires idle in imps && CoveredBy(cs, idle) == []
    ensures idle in Prune(imps, cs)
    decreases |imps|
  {
    match FirstRedundant(imps, cs, 0)
    case None =>
    case Some(i) =>
      var rest := RemoveFirst(imps, imps[i]);
      assert imps[i] != idle;
      assert idle in multiset(imps) && idle in multiset(rest);
      PruneKeepsIdle(rest, cs, idle);
  }

  /**
   * The `while changed` loop of `computational_minimization` (lines 252-271): scan a copy of
   * the list, skip implicants covering nothing, remove the first redundant one and start over.
   */
  method RemoveRedundant(imps0: seq<Implicant>, cs: seq<Implicant>) returns (imps: seq<Implicant>)
    ensures imps == Prune(imps0, cs)
  {
    imps := imps0;
    var changed := true;
    while changed
      invariant changed ==> Prune(imps, cs) == Prune(imps0, cs)
      invariant !changed ==> imps == Prune(imps0, cs)
      decreases |imps|, changed
    {
      changed := false;
      var copy := imps;
      var k := 0;
      while k < |copy|
        invariant 0 <= k <= |copy| && imps == copy && !changed
        invariant FirstRedundant(copy, cs, 0) == FirstRedundant(copy, cs, k)
      {
        var cur := copy[k];
        var covered := CoveredBy(cs, cur);
        if covered != [] {
          var isRedundant := forall c | c in covered :: CoveredByOther(imps, cur, c);
          if isRedundant {
            imps := RemoveFirst(imps, cur);
            changed := true;
            break;
          }
        }
        k := k + 1;
      }
    }
  }

  /** The result comprehension and join of both minimisations (lines 273-282): one term per implicant. */
  method RenderTerms(variables: seq<string>, imps: seq<Implicant>, isPdnf: bool) returns (r: string)
    requires forall k | 0 <= k < |imps| :: |imps[k]| <= |variables|
    ensures r == Render(variables, imps, isPdnf)
  {
    var terms: seq<string> := [];
    var k := 0;
    while k < |imps|
      invariant 0 <= k <= |imps|
      invariant terms == seq(k, i requires 0 <= i < k => Parenthesized(variables, imps[i], isPdnf))
    {
      terms := terms + [Parenthesized(variables, imps[k], isPdnf)];
      k := k + 1;
    }
    r := Join(terms, if isPdnf then "|" else "&");
  }

  /**
   * `computational_minimization`: the pruned implicants of the minimisation, each as a
   * parenthesised term, joined by "|" (PDNF) or "&" (PCNF).
   */
  method ComputationalMinimization(variables: seq<string>, table: seq<seq<int>>, indices: seq<nat>, isPdnf: bool)
      returns (r: string)
    requires forall k | 0 <= k < |indices| :: indices[k] < |table|
    requires BitRows(Constituents(table, indices), |variables|)
    ensures var imps := Prune(Minimized(Constituents(table, indices), |variables|), TargetsOf(table, indices));
      && (forall k | 0 <= k < |imps| :: |imps[k]| == |variables|)
      && r == Render(variables, imps, isPdnf)
  {
    var merged := MergeConstituents(table, indices, |variables|);
    var targets := RowsAsImplicants(Constituents(table, indices));
    var imps := RemoveRedundant(merged, targets);
    PrunedLengths(merged, targets, |variables|);
    r := RenderTerms(variables, imps, isPdnf);
  }

  lemma PrunedLengths(imps: seq<Implicant>, cs: seq<Implicant>, n: nat)
    requires forall k | 0 <= k < |imps| :: |imps[k]| == n
    ensures forall k | 0 <= k < |Prune(imps, cs)| :: |Prune(imps, cs)[k]| == n
  {
    PruneShrinks(imps, cs);
    forall k | 0 <= k < |Prune(imps, cs)| ensures |Prune(imps, cs)[k]| == n {
      var x := Prune(imps, cs)[k];
      assert x in multiset(imps);
      var j :| 0 <= j < |imps| && imps[j] == x;
    }
  }

  /**
   * The implicants `computational_minimization` keeps cover a vector of n bits exactly when
   * it is one of the constituents.
   */
  lemma PrunedCoverage(cs: seq<seq<int>>, n: nat, v: Implicant)
    requires BitRows(cs, n) && |v| == n && StarFree(v)
    ensures (exists m | m in Prune(Minimized(cs, n), RowsAsImplicants(cs)) :: Matches(v, m))
      <==> v in RowsAsImplicants(cs)
  {
    var imps, targets := Minimized(cs, n), RowsAsImplicants(cs);
    MinimizedCoverage(cs, n, v);
    forall c | c in targets ensures exists m | m in imps :: Matches(c, m) {
      var j :| 0 <= j < |targets| && targets[j] == c;
      assert cs[j] in cs;
      MinimizedCoverage(cs, n, c);
    }
    PruneCovers(imps, targets);
    PruneShrinks(imps, targets);
    if m :| m in Prune(imps, targets) && Matches(v, m) {
      assert m in multiset(imps);
    }
  }
}
