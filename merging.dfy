/**
 * What the rounds of `Minimizer.merge_groups` (lab_3/src/corno/minimizer.py:27-72) achieve:
 * each round's merges and kept implicants by membership, the invariant that carries the
 * rounds from one star count to the next, and the fixpoint they reach.  The imperative
 * `MergeRound` is proved to compute `Round`, and `MergeGroups` to compute `Fixpoint`.
 */
module Merging {
  import opened Ordered
  import opened Implicants
  import opened Rounds


  // ---------------------------------------------------------------------------------------
  // What a scan adds, stated by membership

  lemma {:induction false} AddMergedGet(res: Groups<Implicant>, key: int, m: Implicant)
    ensures forall k, x :: x in Get(AddMerged(res, key, m), k) <==> x in Get(res, k) || (k == key && x == m)
    ensures DistinctKeys(res) ==> DistinctKeys(AddMerged(res, key, m))
    ensures forall k :: NoDuplicates(Get(res, k)) ==> NoDuplicates(Get(AddMerged(res, key, m), k))
  {
    forall k | NoDuplicates(Get(res, k)) ensures NoDuplicates(Get(AddMerged(res, key, m), k)) {
      if m !in Get(res, key) {
        assert Get(AddMerged(res, key, m), k) == if k == key then Get(res, k) + [m] else Get(res, k);
      }
    }
  }

  lemma {:induction false} PairStepEffect(st: RoundState, key: int, a: Implicant, b: Implicant)
    requires |a| == |b|
    ensures (forall k, m :: m in Get(PairStep(st, key, a, b).result, k) <==> m in Get(st.result, k) || (k == key && CanMerge(a, b) && m == MergeOf(a, b)))
      && (forall p :: p in PairStep(st, key, a, b).used <==> p in st.used || (CanMerge(a, b) && (p == a || p == b)))
      && (PairStep(st, key, a, b).changed <==> st.changed || CanMerge(a, b))
      && (!PairStep(st, key, a, b).changed ==> PairStep(st, key, a, b) == st)
      && (ListsDistinct(st.result) ==> ListsDistinct(PairStep(st, key, a, b).result))
  {
    AddMergedGet(st.result, key, MergeOf(a, b));
  }

  lemma {:induction false} ScanSecondEffect(st: RoundState, key: int, a: Implicant, bs: seq<Implicant>)
    requires AllLength(bs, |a|)
    ensures (forall k, m :: m in Get(ScanSecond(st, key, a, bs).result, k) <==>
            m in Get(st.result, k) || (k == key && exists y | y in bs && CanMerge(a, y) :: m == MergeOf(a, y)))
      && (forall p :: p in ScanSecond(st, key, a, bs).used <==> p in st.used || exists y | y in bs && CanMerge(a, y) :: p == a || p == y)
      && (ScanSecond(st, key, a, bs).changed <==> st.changed || exists y | y in bs :: CanMerge(a, y))
      && (!ScanSecond(st, key, a, bs).changed ==> ScanSecond(st, key, a, bs) == st)
      && (ListsDistinct(st.result) ==> ListsDistinct(ScanSecond(st, key, a, bs).result))
  {
    if |bs| > 0 {
      var prefix := bs[..|bs| - 1];
      var b := bs[|bs| - 1];
      assert forall y :: y in bs <==> y in prefix || y == b;
      ScanSecondEffect(st, key, a, prefix);
      PairStepEffect(ScanSecond(st, key, a, prefix), key, a, b);
    }
  }

  lemma {:induction false} ScanFirstEffect(st: RoundState, key: int, firsts: seq<Implicant>, seconds: seq<Implicant>, n: nat)
    requires AllLength(firsts, n) && AllLength(seconds, n)
    ensures (forall k, m :: m in Get(ScanFirst(st, key, firsts, seconds, n).result, k) <==>
            m in Get(st.result, k) || (k == key && exists x, y | x in firsts && y in seconds && CanMerge(x, y) :: m == MergeOf(x, y)))
      && (forall p :: p in ScanFirst(st, key, firsts, seconds, n).used <==>
            p in st.used || exists x, y | x in firsts && y in seconds && CanMerge(x, y) :: p == x || p == y)
      && (ScanFirst(st, key, firsts, seconds, n).changed <==> st.changed || exists x, y | x in firsts && y in seconds :: CanMerge(x, y))
      && (!ScanFirst(st, key, firsts, seconds, n).changed ==> ScanFirst(st, key, firsts, seconds, n) == st)
      && (ListsDistinct(st.result) ==> ListsDistinct(ScanFirst(st, key, firsts, seconds, n).result))
  {
    if |firsts| > 0 {
      var prefix := firsts[..|firsts| - 1];
      var a := firsts[|firsts| - 1];
      assert forall x :: x in firsts <==> x in prefix || x == a;
      ScanFirstEffect(st, key, prefix, seconds, n);
      ScanSecondEffect(ScanFirst(st, key, prefix, seconds, n), key, a, seconds);
    }
  }

  /** Scanning one key: its merges, its used pairs, and whether it merged at all. */
  lemma {:induction false} ScanKeyStep(mid: RoundState, g: Groups<Implicant>, key: int, n: nat)
    requires Uniform(g, n)
    ensures (forall k, m {:trigger m in Get(ScanKey(mid, g, key, n).result, k)} :: m in Get(ScanKey(mid, g, key, n).result, k) <==> m in Get(mid.result, k) || (k == key && MergedFrom(g, k, m)))
      && (forall p :: p in ScanKey(mid, g, key, n).used <==> p in mid.used || UsedFrom(g, key, p))
      && (ScanKey(mid, g, key, n).changed <==> mid.changed || AnyMerge(g, key))
      && (!ScanKey(mid, g, key, n).changed ==> ScanKey(mid, g, key, n) == mid)
      && (ListsDistinct(mid.result) ==> ListsDistinct(ScanKey(mid, g, key, n).result))
  {
    assert AllLength(Get(g, key), n) && AllLength(Get(g, key + 1), n);
    if Has(g, key + 1) {
      ScanFirstEffect(mid, key, Get(g, key), Get(g, key + 1), n);
    } else {
      assert Get(g, key + 1) == [];
    }
  }

  lemma {:induction false} ScanKeysEffect(st: RoundState, g: Groups<Implicant>, keys: seq<int>, n: nat)
    requires Uniform(g, n)
    ensures (forall k, m {:trigger m in Get(ScanKeys(st, g, keys, n).result, k)} :: m in Get(ScanKeys(st, g, keys, n).result, k) <==> m in Get(st.result, k) || (k in keys && MergedFrom(g, k, m)))
      && (forall p :: p in ScanKeys(st, g, keys, n).used <==> p in st.used || exists k | k in keys :: UsedFrom(g, k, p))
      && (ScanKeys(st, g, keys, n).changed <==> st.changed || exists k | k in keys :: AnyMerge(g, k))
      && (!ScanKeys(st, g, keys, n).changed ==> ScanKeys(st, g, keys, n) == st)
      && (ListsDistinct(st.result) ==> ListsDistinct(ScanKeys(st, g, keys, n).result))
  {
    if |keys| > 0 {
      var prefix := keys[..|keys| - 1];
      var key := keys[|keys| - 1];
      assert forall k :: k in keys <==> k in prefix || k == key;
      ScanKeysEffect(st, g, prefix, n);
      var mid := ScanKeys(st, g, prefix, n);
      ScanKeyStep(mid, g, key, n);
      var fin := ScanKeys(st, g, keys, n);
      assert fin == ScanKey(mid, g, key, n);
      forall k, m ensures m in Get(fin.result, k) <==> m in Get(st.result, k) || (k in keys && MergedFrom(g, k, m)) {
        assert m in Get(fin.result, k) <==> m in Get(mid.result, k) || (k == key && MergedFrom(g, k, m));
        assert m in Get(mid.result, k) <==> m in Get(st.result, k) || (k in prefix && MergedFrom(g, k, m));
      }
      forall p ensures (exists k | k in keys :: UsedFrom(g, k, p)) <==> (exists k | k in prefix :: UsedFrom(g, k, p)) || UsedFrom(g, key, p) {
      }
      assert (exists k | k in keys :: AnyMerge(g, k)) <==> (exists k | k in prefix :: AnyMerge(g, k)) || AnyMerge(g, key);
    }
  }

  lemma {:induction false} KeepListMembers(res: Groups<Implicant>, used: set<Implicant>, key: int, cs: seq<Implicant>, k: int, x: Implicant)
    ensures x in Get(KeepList(res, used, key, cs), k) <==> x in Get(res, k) || (k == key && x in cs && x !in used)
  {
    if |cs| > 0 {
      var prefix := cs[..|cs| - 1];
      var c := cs[|cs| - 1];
      assert x in cs <==> x in prefix || x == c;
      KeepListMembers(res, used, key, prefix, k, x);
    }
  }

  lemma {:induction false} KeepListKeys(res: Groups<Implicant>, used: set<Implicant>, key: int, cs: seq<Implicant>)
    ensures DistinctKeys(res) ==> DistinctKeys(KeepList(res, used, key, cs))
  {
    if |cs| > 0 {
      KeepListKeys(res, used, key, cs[..|cs| - 1]);
    }
  }

  /** With nothing used, re-filing a group appends the whole group under its key. */
  lemma {:induction false} KeepListAll(res: Groups<Implicant>, key: int, cs: seq<Implicant>, k: int)
    ensures Get(KeepList(res, {}, key, cs), k) == Get(res, k) + if k == key then cs else []
  {
    if |cs| > 0 {
      var prefix, c := cs[..|cs| - 1], cs[|cs| - 1];
      var r := KeepList(res, {}, key, prefix);
      assert KeepList(res, {}, key, cs) == Append(r, key, c);
      KeepListAll(res, key, prefix, k);
      if k == key {
        AppendLast(Get(res, k), cs);
      }
    }
  }

  /** After the scan, lines 63-68 add exactly the unused implicants, each under its old key. */
  lemma {:induction false} KeepUnusedMembers(res: Groups<Implicant>, used: set<Implicant>, g: Groups<Implicant>, k: int, x: Implicant)
    requires DistinctKeys(g)
    ensures x in Get(KeepUnused(res, used, g), k) <==> x in Get(res, k) || (x in Get(g, k) && x !in used)
  {
    if |g| > 0 {
      var p := g[..|g| - 1];
      var e := g[|g| - 1];
      DistinctKeysPrefix(g, |g| - 1);
      assert g == p + [e];
      assert KeepUnused(res, used, g) == KeepList(KeepUnused(res, used, p), used, e.0, e.1);
      GetSnoc(p, e, k);
      KeepUnusedMembers(res, used, p, k, x);
      KeepListMembers(KeepUnused(res, used, p), used, e.0, e.1, k, x);
    }
  }

  lemma {:induction false} KeepUnusedKeys(res: Groups<Implicant>, used: set<Implicant>, g: Groups<Implicant>)
    ensures DistinctKeys(res) ==> DistinctKeys(KeepUnused(res, used, g))
  {
    if |g| > 0 {
      KeepUnusedKeys(res, used, g[..|g| - 1]);
      KeepListKeys(KeepUnused(res, used, g[..|g| - 1]), used, g[|g| - 1].0, g[|g| - 1].1);
    }
  }

  /** With nothing merged, the kept dictionary files every group as before. */
  lemma {:induction false} KeepUnusedAll(g: Groups<Implicant>, k: int)
    requires DistinctKeys(g)
    ensures Get(KeepUnused([], {}, g), k) == Get(g, k)
  {
    if |g| > 0 {
      var p := g[..|g| - 1];
      var e := g[|g| - 1];
      DistinctKeysPrefix(g, |g| - 1);
      assert g == p + [e];
      assert KeepUnused([], {}, g) == KeepList(KeepUnused([], {}, p), {}, e.0, e.1);
      GetSnoc(p, e, k);
      KeepUnusedAll(p, k);
      KeepListAll(KeepUnused([], {}, p), e.0, e.1, k);
    }
  }

  // ---------------------------------------------------------------------------------------
  // What holds of the dictionary at the start of a round

  /** The facts about one pair of neighbour-group implicants that a merge step relies on. */
  lemma {:induction false} PairFacts(g: Groups<Implicant>, n: nat, r: nat, key: int, a: Implicant, b: Implicant)
    requires LevelInv(g, n, r)
    requires a in Get(g, key) && b in Get(g, key + 1)
    ensures |a| == n && |b| == n
    ensures Popcount(a) == key && Popcount(b) == key + 1
    ensures CanMerge(a, b) ==> StarCount(a) == r
  {
    assert AllLength(Get(g, key), n) && AllLength(Get(g, key + 1), n);
  }

  // ---------------------------------------------------------------------------------------
  // One round

  lemma ScanFacts(g: Groups<Implicant>, n: nat)
    requires Uniform(g, n)
    ensures ScanOf(ScanKeys(Start, g, SortedKeys(g), n), g)
  {
    var keys := SortedKeys(g);
    ScanKeysEffect(Start, g, keys, n);
    forall k, m | MergedFrom(g, k, m) ensures k in keys {
      var x, y :| x in Get(g, k) && y in Get(g, k + 1) && |x| == |y| && CanMerge(x, y) && m == MergeOf(x, y);
    }
    forall k, p | UsedFrom(g, k, p) ensures k in keys {
      var x, y :| x in Get(g, k) && y in Get(g, k + 1) && |x| == |y| && CanMerge(x, y) && (p == x || p == y);
    }
    forall k | AnyMerge(g, k) ensures k in keys {
      var x, y :| x in Get(g, k) && y in Get(g, k + 1) && |x| == |y| && CanMerge(x, y);
    }
  }

  /** Each merged vector has n positions, keeps the lower group's popcount and has r + 1 stars. */
  lemma MergedShape(s: RoundState, g: Groups<Implicant>, n: nat, r: nat)
    requires LevelInv(g, n, r) && ScanOf(s, g)
    ensures forall k, m | m in Get(s.result, k) :: Shaped(m, n, k, r + 1)
  {
    forall k, m | m in Get(s.result, k) ensures Shaped(m, n, k, r + 1) {
      assert MergedFrom(g, k, m);
      MergedMember(g, n, r, k, m);
    }
  }

  lemma MergedMember(g: Groups<Implicant>, n: nat, r: nat, k: int, m: Implicant)
    requires LevelInv(g, n, r) && MergedFrom(g, k, m)
    ensures Shaped(m, n, k, r + 1)
  {
    var x, y :| x in Get(g, k) && y in Get(g, k + 1) && |x| == |y| && CanMerge(x, y) && m == MergeOf(x, y);
    MergeOfShape(g, n, r, k, x, y);
  }

  lemma {:induction false} MergeOfShape(g: Groups<Implicant>, n: nat, r: nat, k: int, x: Implicant, y: Implicant)
    requires LevelInv(g, n, r)
    requires x in Get(g, k) && y in Get(g, k + 1) && |x| == |y| && CanMerge(x, y)
    ensures |MergeOf(x, y)| == n && Popcount(MergeOf(x, y)) == k && StarCount(MergeOf(x, y)) == r + 1
  {
    PairFacts(g, n, r, k, x, y);
    MergeCounts(x, y);
  }

  /** Membership in the dictionary a round produces from its merges res and its used set. */
  lemma RoundMembers(res: Groups<Implicant>, used: set<Implicant>, g: Groups<Implicant>)
    requires DistinctKeys(g) && DistinctKeys(res)
    ensures DistinctKeys(KeepUnused(res, used, g))
    ensures forall k, x {:trigger x in Get(KeepUnused(res, used, g), k)} ::
      x in Get(KeepUnused(res, used, g), k) <==> x in Get(res, k) || (x in Get(g, k) && x !in used)
  {
    KeepUnusedKeys(res, used, g);
    forall k, x {:trigger x in Get(KeepUnused(res, used, g), k)} ensures x in Get(KeepUnused(res, used, g), k) <==> x in Get(res, k) || (x in Get(g, k) && x !in used) {
      KeepUnusedMembers(res, used, g, k, x);
    }
  }

  /** A round files every implicant it keeps under its popcount, with at most r + 1 stars. */
  lemma RoundShape(s: RoundState, g: Groups<Implicant>, n: nat, r: nat)
    requires LevelInv(g, n, r) && ScanOf(s, g)
    ensures DistinctKeys(KeepUnused(s.result, s.used, g))
    ensures forall k, x | x in Get(KeepUnused(s.result, s.used, g), k) :: |x| == n && Bounded(x, k, r + 1)
  {
    var h := KeepUnused(s.result, s.used, g);
    RoundMembers(s.result, s.used, g);
    forall k, x | x in Get(h, k) ensures |x| == n && Bounded(x, k, r + 1) {
      if x in Get(s.result, k) {
        assert MergedFrom(g, k, x);
        MergedMember(g, n, r, k, x);
      } else {
        assert x in Get(g, k) && AllLength(Get(g, k), n);
      }
    }
  }

  lemma UniformOf(h: Groups<Implicant>, n: nat, r: nat)
    requires forall k, x | x in Get(h, k) :: |x| == n && Bounded(x, k, r)
    ensures Uniform(h, n)
  {
    forall k ensures AllLength(Get(h, k), n) {
    }
  }

  /**
   * Coverage is invariant: a constituent is covered by the dictionary after a round
   * exactly when it was covered before it.
   */
  lemma RoundCoverage(s: RoundState, g: Groups<Implicant>, n: nat, r: nat, c: Implicant)
    requires LevelInv(g, n, r) && ScanOf(s, g) && |c| == n && StarFree(c)
    ensures CoveredIn(KeepUnused(s.result, s.used, g), c) <==> CoveredIn(g, c)
  {
    var h := KeepUnused(s.result, s.used, g);
    if CoveredIn(h, c) {
      var k, m :| m in Get(h, k) && Matches(c, m);
      var k', p := CoverageSound(s, g, n, r, c, k, m);
    }
    if CoveredIn(g, c) {
      var k, p :| p in Get(g, k) && Matches(c, p);
      var k', p' := CoverageComplete(s, g, n, r, c, k, p);
    }
  }

  /** Whatever a kept or merged implicant covers was covered before the round. */
  lemma CoverageSound(s: RoundState, g: Groups<Implicant>, n: nat, r: nat, c: Implicant, k: int, m: Implicant)
      returns (k': int, p: Implicant)
    requires LevelInv(g, n, r) && ScanOf(s, g) && |c| == n && StarFree(c)
    requires m in Get(KeepUnused(s.result, s.used, g), k) && Matches(c, m)
    ensures p in Get(g, k') && Matches(c, p)
  {
    RoundMembers(s.result, s.used, g);
    if m in Get(s.result, k) {
      assert MergedFrom(g, k, m);
      var x, y :| x in Get(g, k) && y in Get(g, k + 1) && |x| == |y| && CanMerge(x, y) && m == MergeOf(x, y);
      PairFacts(g, n, r, k, x, y);
      MergeCover(x, y, c);
      k', p := k, x;
      if !Matches(c, x) {
        k', p := k + 1, y;
      }
    } else {
      k', p := k, m;
    }
  }

  /** Whatever was covered before the round is covered by a kept or a merged implicant. */
  lemma CoverageComplete(s: RoundState, g: Groups<Implicant>, n: nat, r: nat, c: Implicant, k: int, p: Implicant)
      returns (k': int, p': Implicant)
    requires LevelInv(g, n, r) && ScanOf(s, g) && |c| == n && StarFree(c)
    requires p in Get(g, k) && Matches(c, p)
    ensures p' in Get(KeepUnused(s.result, s.used, g), k') && Matches(c, p')
  {
    RoundMembers(s.result, s.used, g);
    if p in s.used {
      var j :| UsedFrom(g, j, p);
      var x, y :| x in Get(g, j) && y in Get(g, j + 1) && |x| == |y| && CanMerge(x, y) && (p == x || p == y);
      PairFacts(g, n, r, j, x, y);
      MergeCover(x, y, c);
      assert MergedFrom(g, j, MergeOf(x, y));
      k', p' := j, MergeOf(x, y);
    } else {
      k', p' := k, p;
    }
  }

  /** A round that merges leaves a dictionary that satisfies the next level's invariant. */
  lemma RoundAdvances(s: RoundState, g: Groups<Implicant>, n: nat, r: nat)
    requires LevelInv(g, n, r) && ScanOf(s, g) && s.changed
    ensures r < n && LevelInv(KeepUnused(s.result, s.used, g), n, r + 1)
  {
    RoundShape(s, g, n, r);
    UniformOf(KeepUnused(s.result, s.used, g), n, r + 1);
    RoundGrows(s, g, n, r);
    AdvancePairs(s, g, n, r);
  }

  /** A merge needs a position without a star, so a merging round has r < n. */
  lemma RoundGrows(s: RoundState, g: Groups<Implicant>, n: nat, r: nat)
    requires LevelInv(g, n, r) && ScanOf(s, g) && s.changed
    ensures r < n
  {
    var k :| AnyMerge(g, k);
    var x, y :| x in Get(g, k) && y in Get(g, k + 1) && |x| == |y| && CanMerge(x, y);
    PairFacts(g, n, r, k, x, y);
    MergeablePosition(x, y);
    StarCountBelowLength(x, DiffIndex(x, y));
  }

  lemma AdvancePairs(s: RoundState, g: Groups<Implicant>, n: nat, r: nat)
    requires LevelInv(g, n, r) && ScanOf(s, g)
    ensures forall k, x, y | x in Get(KeepUnused(s.result, s.used, g), k) && y in Get(KeepUnused(s.result, s.used, g), k + 1) && |x| == |y| && CanMerge(x, y) ::
      StarCount(x) == r + 1
  {
    forall k, x, y | x in Get(KeepUnused(s.result, s.used, g), k) && y in Get(KeepUnused(s.result, s.used, g), k + 1) && |x| == |y| && CanMerge(x, y)
      ensures StarCount(x) == r + 1
    {
      AdvancePair(s, g, n, r, k, x, y);
    }
  }

  /** A pair still mergeable after a merging round contains a vector merged in that round. */
  lemma AdvancePair(s: RoundState, g: Groups<Implicant>, n: nat, r: nat, k: int, x: Implicant, y: Implicant)
    requires LevelInv(g, n, r) && ScanOf(s, g)
    requires x in Get(KeepUnused(s.result, s.used, g), k) && y in Get(KeepUnused(s.result, s.used, g), k + 1)
    requires |x| == |y| && CanMerge(x, y)
    ensures StarCount(x) == r + 1
  {
    RoundMembers(s.result, s.used, g);
    if x in Get(s.result, k) {
      assert MergedFrom(g, k, x);
      MergedMember(g, n, r, k, x);
    } else {
      assert x in Get(g, k) && x !in s.used;
      MergeablePosition(x, y);
      SameStarsStarCount(x, y);
      if y in Get(s.result, k + 1) {
        assert MergedFrom(g, k + 1, y);
        MergedMember(g, n, r, k + 1, y);
      } else {
        assert y in Get(g, k + 1);
        assert UsedFrom(g, k, x);
        assert false;
      }
    }
  }

  /** A round that merges nothing returns the same groups, none of which can merge with a neighbour. */
  lemma RoundStable(s: RoundState, g: Groups<Implicant>)
    requires DistinctKeys(g) && ScanOf(s, g) && !s.changed
    ensures forall k :: Get(KeepUnused(s.result, s.used, g), k) == Get(g, k)
    ensures forall k :: !AnyMerge(g, k)
  {
    forall k ensures Get(KeepUnused(s.result, s.used, g), k) == Get(g, k) {
      KeepUnusedAll(g, k);
    }
  }

  // ---------------------------------------------------------------------------------------
  // The `while changed` loop

  /** A round of g, when it merges, starts the next level. */
  lemma RoundNext(g: Groups<Implicant>, n: nat, r: nat)
    requires LevelInv(g, n, r)
    ensures Round(g, n).1 ==> r < n && LevelInv(Round(g, n).0, n, r + 1)
  {
    ScanFacts(g, n);
    var s := ScanKeys(Start, g, SortedKeys(g), n);
    if s.changed {
      RoundAdvances(s, g, n, r);
    }
  }

  /** A round that merges nothing rebuilds the same groups, none of which merges with a neighbour. */
  lemma RoundFinal(g: Groups<Implicant>, n: nat, r: nat)
    requires LevelInv(g, n, r) && !Round(g, n).1
    ensures forall k :: Get(Round(g, n).0, k) == Get(g, k)
    ensures forall k :: !AnyMerge(g, k)
  {
    ScanFacts(g, n);
    RoundStable(ScanKeys(Start, g, SortedKeys(g), n), g);
  }

  /** A constituent covered before a round is covered after it, by the returned implicant. */
  lemma RoundComplete(g: Groups<Implicant>, n: nat, r: nat, c: Implicant, k: int, p: Implicant)
      returns (k': int, p': Implicant)
    requires LevelInv(g, n, r) && |c| == n && StarFree(c) && p in Get(g, k) && Matches(c, p)
    ensures p' in Get(Round(g, n).0, k') && Matches(c, p')
  {
    ScanFacts(g, n);
    k', p' := CoverageComplete(ScanKeys(Start, g, SortedKeys(g), n), g, n, r, c, k, p);
  }

  /** A constituent covered after a round was covered before it, by the returned implicant. */
  lemma RoundSound(g: Groups<Implicant>, n: nat, r: nat, c: Implicant, k: int, m: Implicant)
      returns (k': int, p: Implicant)
    requires LevelInv(g, n, r) && |c| == n && StarFree(c) && m in Get(Round(g, n).0, k) && Matches(c, m)
    ensures p in Get(g, k') && Matches(c, p)
  {
    ScanFacts(g, n);
    k', p := CoverageSound(ScanKeys(Start, g, SortedKeys(g), n), g, n, r, c, k, m);
  }

  /** The dictionary the rounds reach from g, starting at round r. */
  function Fixpoint(g: Groups<Implicant>, n: nat, r: nat): Groups<Implicant>
    requires LevelInv(g, n, r)
    decreases n - r
  {
    RoundNext(g, n, r);
    if Round(g, n).1 then Fixpoint(Round(g, n).0, n, r + 1) else Round(g, n).0
  }

  /** The rounds keep every implicant of length n, filed under its popcount. */
  lemma {:induction false} FixpointShape(g: Groups<Implicant>, n: nat, r: nat)
    requires LevelInv(g, n, r)
    ensures DistinctKeys(Fixpoint(g, n, r))
    ensures forall k, x | x in Get(Fixpoint(g, n, r), k) :: Keyed(x, n, k)
    decreases n - r
  {
    RoundNext(g, n, r);
    if Round(g, n).1 {
      FixpointShape(Round(g, n).0, n, r + 1);
    } else {
      RoundShapeFinal(g, n, r);
    }
  }

  lemma RoundShapeFinal(g: Groups<Implicant>, n: nat, r: nat)
    requires LevelInv(g, n, r) && !Round(g, n).1
    ensures DistinctKeys(Round(g, n).0)
    ensures forall k, x | x in Get(Round(g, n).0, k) :: Keyed(x, n, k)
  {
    ScanFacts(g, n);
    var s := ScanKeys(Start, g, SortedKeys(g), n);
    RoundShape(s, g, n, r);
    forall k, x | x in Get(Round(g, n).0, k) ensures Keyed(x, n, k) {
      assert |x| == n && Bounded(x, k, r + 1);
    }
  }

  /** A constituent of n variables is covered after the rounds exactly when it was before. */
  lemma FixpointCoverage(g: Groups<Implicant>, n: nat, r: nat, c: Implicant)
    requires LevelInv(g, n, r) && |c| == n && StarFree(c)
    ensures CoveredIn(Fixpoint(g, n, r), c) <==> CoveredIn(g, c)
  {
    if CoveredIn(g, c) {
      var k, p :| p in Get(g, k) && Matches(c, p);
      var k', p' := FixpointComplete(g, n, r, c, k, p);
    }
    if CoveredIn(Fixpoint(g, n, r), c) {
      var k, m :| m in Get(Fixpoint(g, n, r), k) && Matches(c, m);
      var k', p := FixpointSound(g, n, r, c, k, m);
    }
  }

  /** p, filed under key k of g, covers the constituent c of n variables; g is at level r. */
  ghost predicate CoverAt(g: Groups<Implicant>, n: nat, r: nat, c: Implicant, k: int, p: Implicant)
  {
    var holds := LevelInv(g, n, r) && |c| == n && StarFree(c) && p in Get(g, k) && Matches(c, p);
    holds
  }

  lemma RoundCompleteAt(g: Groups<Implicant>, n: nat, r: nat, c: Implicant, k: int, p: Implicant)
      returns (k': int, p': Implicant)
    requires CoverAt(g, n, r, c, k, p) && Round(g, n).1
    ensures CoverAt(Round(g, n).0, n, r + 1, c, k', p') && Fixpoint(g, n, r) == Fixpoint(Round(g, n).0, n, r + 1)
  {
    RoundNext(g, n, r);
    k', p' := RoundComplete(g, n, r, c, k, p);
  }

  lemma {:induction false} FixpointComplete(g: Groups<Implicant>, n: nat, r: nat, c: Implicant, k: int, p: Implicant)
      returns (k': int, p': Implicant)
    requires CoverAt(g, n, r, c, k, p)
    ensures p' in Get(Fixpoint(g, n, r), k') && Matches(c, p')
    decreases n - r
  {
    if Round(g, n).1 {
      var j, q := RoundCompleteAt(g, n, r, c, k, p);
      var r1 := r + 1;
      k', p' := FixpointComplete(Round(g, n).0, n, r1, c, j, q);
    } else {
      RoundFinal(g, n, r);
      k', p' := k, p;
    }
  }

  lemma {:induction false} FixpointSound(g: Groups<Implicant>, n: nat, r: nat, c: Implicant, k: int, m: Implicant)
      returns (k': int, p: Implicant)
    requires LevelInv(g, n, r) && |c| == n && StarFree(c) && m in Get(Fixpoint(g, n, r), k) && Matches(c, m)
    ensures p in Get(g, k') && Matches(c, p)
    decreases n - r
  {
    if Round(g, n).1 {
      var g1, r1 := SoundStep(g, n, r, k, m);
      var j, q := FixpointSound(g1, n, r1, c, k, m);
      k', p := RoundSound(g, n, r, c, j, q);
    } else {
      FixpointIdle(g, n, r);
      k', p := k, m;
    }
  }

  /** An implicant of the rounds' outcome from g is one of the outcome from the next round. */
  lemma SoundStep(g: Groups<Implicant>, n: nat, r: nat, k: int, m: Implicant) returns (g1: Groups<Implicant>, r1: nat)
    requires LevelInv(g, n, r) && Round(g, n).1 && m in Get(Fixpoint(g, n, r), k)
    ensures g1 == Round(g, n).0 && r1 == r + 1 && LevelInv(g1, n, r1) && m in Get(Fixpoint(g1, n, r1), k)
  {
    FixpointStep(g, n, r);
    g1, r1 := Round(g, n).0, r + 1;
  }

  /** A merging round advances the level and leaves the rounds' outcome unchanged. */
  lemma FixpointStep(g: Groups<Implicant>, n: nat, r: nat)
    requires LevelInv(g, n, r) && Round(g, n).1
    ensures r < n && LevelInv(Round(g, n).0, n, r + 1)
    ensures Fixpoint(g, n, r) == Fixpoint(Round(g, n).0, n, r + 1)
  {
    RoundNext(g, n, r);
  }

  /** When a round merges nothing, the rounds' outcome holds exactly the groups of g. */
  lemma FixpointIdle(g: Groups<Implicant>, n: nat, r: nat)
    requires LevelInv(g, n, r) && !Round(g, n).1
    ensures forall k :: Get(Fixpoint(g, n, r), k) == Get(g, k)
    ensures forall k :: !AnyMerge(Fixpoint(g, n, r), k)
  {
    RoundNext(g, n, r);
    RoundFinal(g, n, r);
    var h := Fixpoint(g, n, r);
    assert h == Round(g, n).0;
    forall k ensures !AnyMerge(h, k) {
      SameGroups(g, h, k);
    }
  }

  /** Whether groups k and k + 1 merge depends on their contents only. */
  lemma SameGroups(g: Groups<Implicant>, h: Groups<Implicant>, k: int)
    requires Get(h, k) == Get(g, k) && Get(h, k + 1) == Get(g, k + 1)
    ensures AnyMerge(h, k) == AnyMerge(g, k)
  {
  }

  lemma {:induction false} FixpointPrime(g: Groups<Implicant>, n: nat, r: nat)
    requires LevelInv(g, n, r)
    ensures forall k :: !AnyMerge(Fixpoint(g, n, r), k)
    decreases n - r
  {
    if Round(g, n).1 {
      FixpointStep(g, n, r);
      var r1 := r + 1;
      FixpointPrime(Round(g, n).0, n, r1);
    } else {
      FixpointIdle(g, n, r);
    }
  }
}
