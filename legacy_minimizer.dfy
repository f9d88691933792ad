/**
 * `remove_redundant_implicants` of the older minimiser (lab_3/src/corno/computational.py:200-221):
 * for each position i in turn, pop the first other implicant that agrees with implicants[i]
 * wherever neither has "*". The list is changed in place and returned; here the list is a
 * sequence the loops reassign.
 */
module LegacyMinimizer {
  import opened Wrappers
  import opened Implicants

  /** `all(k == z for k, z in zip(a, b) if k != "*" and z != "*")`: zip stops at the shorter. */
  predicate Compatible(a: Implicant, b: Implicant)
  {
    forall k | 0 <= k < |a| && k < |b| :: a[k] != Star && b[k] != Star ==> a[k] == b[k]
  }

  /** The first position at or after j, other than i, whose implicant is compatible with the one at i. */
  function FirstCompatible(imps: seq<Implicant>, i: nat, j: nat): (r: Option<nat>)
    requires i < |imps| && j <= |imps|
    ensures r.Some? ==> j <= r.value < |imps| && r.value != i && Compatible(imps[i], imps[r.value])
    ensures r.Some? ==> forall k | j <= k < r.value && k != i :: !Compatible(imps[i], imps[k])
    ensures r.None? ==> forall k | j <= k < |imps| && k != i :: !Compatible(imps[i], imps[k])
    decreases |imps| - j
  {
    if j == |imps| then None
    else if j != i && Compatible(imps[i], imps[j]) then Some(j)
    else FirstCompatible(imps, i, j + 1)
  }

  /** The round for position i: pop the first compatible other implicant, if any. */
  function Round(imps: seq<Implicant>, i: nat): (r: seq<Implicant>)
    requires i < |imps|
    ensures |r| <= |imps|
  {
    match FirstCompatible(imps, i, 0)
    case None => imps
    case Some(j) => imps[..j] + imps[j + 1..]
  }

  /** The rounds for positions i, i + 1, ... while i is below the current length. */
  function RoundsFrom(imps: seq<Implicant>, i: nat): seq<Implicant>
    decreases |imps| - i
  {
    if i >= |imps| then imps else RoundsFrom(Round(imps, i), i + 1)
  }

  /** `remove_redundant_implicants` */
  method RemoveRedundantImplicants(implicants: seq<Implicant>) returns (imps: seq<Implicant>)
    ensures imps == RoundsFrom(implicants, 0)
  {
    imps := implicants;
    var i := 0;
    while i < |imps|
      invariant RoundsFrom(imps, i) == RoundsFrom(implicants, 0)
      decreases |imps| - i
    {
      imps := PopFirstCompatible(imps, i);
      i := i + 1;
    }
  }

  /** The inner loop over j: pop the first j != i whose implicant is compatible, then stop. */
  method PopFirstCompatible(implicants: seq<Implicant>, i: nat) returns (imps: seq<Implicant>)
    requires i < |implicants|
    ensures imps == Round(implicants, i)
  {
    imps := implicants;
    var implicant1 := imps[i];
    var j := 0;
    while j < |imps|
      invariant imps == implicants && j <= |imps|
      invariant FirstCompatible(implicants, i, 0) == FirstCompatible(implicants, i, j)
    {
      if i == j {
        j := j + 1;
        continue;
      }
      var implicant2 := imps[j];
      if Compatible(implicant1, implicant2) {
        imps := imps[..j] + imps[j + 1..];
        return;
      }
      j := j + 1;
    }
  }

  /** `a` is `b` with some elements left out, the others in their order. */
  predicate Subsequence(a: seq<Implicant>, b: seq<Implicant>)
    decreases |b|
  {
    if |a| == 0 then true
    else if |b| == 0 then false
    else if a[0] == b[0] then Subsequence(a[1..], b[1..])
    else Subsequence(a, b[1..])
  }

  lemma {:induction false} SubsequenceReflexive(a: seq<Implicant>)
    ensures Subsequence(a, a)
  {
    if |a| > 0 {
      SubsequenceReflexive(a[1..]);
    }
  }

  /** Leaving out position j gives a subsequence. */
  lemma {:induction false} DropOne(b: seq<Implicant>, j: nat)
    requires j < |b|
    ensures Subsequence(b[..j] + b[j + 1..], b)
  {
    if j == 0 {
      assert b[..0] + b[1..] == b[1..];
      SubsequenceOfTail(b[1..], b);
    } else {
      DropOne(b[1..], j - 1);
      assert (b[..j] + b[j + 1..])[1..] == b[1..][..j - 1] + b[1..][j..];
    }
  }

  /** A sequence is a subsequence of itself with one more element in front. */
  lemma SubsequenceOfTail(t: seq<Implicant>, b: seq<Implicant>)
    requires |b| > 0 && t == b[1..]
    ensures Subsequence(t, b)
  {
    SubsequenceReflexive(t);
    SkipFront(t, b);
  }

  /** A subsequence of b's tail is a subsequence of b. */
  lemma {:induction false} SkipFront(a: seq<Implicant>, b: seq<Implicant>)
    requires |b| > 0 && Subsequence(a, b[1..])
    ensures Subsequence(a, b)
    decreases |b|, 0
  {
    if |a| > 0 && a[0] == b[0] {
      // a[1..] is a subsequence of b[1..] because a is.
      SubsequenceTail(a, b[1..]);
    }
  }

  /** Dropping the head of a subsequence keeps it a subsequence. */
  lemma {:induction false} SubsequenceTail(a: seq<Implicant>, b: seq<Implicant>)
    requires |a| > 0 && Subsequence(a, b)
    ensures Subsequence(a[1..], b)
    decreases |b|, 1
  {
    if a[0] == b[0] {
      SkipFront(a[1..], b);
    } else {
      SubsequenceTail(a, b[1..]);
      SkipFront(a[1..], b);
    }
  }

  lemma {:induction false} SubsequenceTransitive(a: seq<Implicant>, b: seq<Implicant>, c: seq<Implicant>)
    requires Subsequence(a, b) && Subsequence(b, c)
    ensures Subsequence(a, c)
    decreases |c|
  {
    if |a| > 0 {
      if a[0] == b[0] && b[0] == c[0] {
        SubsequenceTransitive(a[1..], b[1..], c[1..]);
      } else if b[0] == c[0] {
        SubsequenceTransitive(a, b[1..], c[1..]);
        SkipFront(a, c);
      } else {
        SubsequenceTransitive(a, b, c[1..]);
        SkipFront(a, c);
      }
    }
  }

  /** Each round leaves a subsequence, so the result is a subsequence of the input. */
  lemma {:induction false} RoundsSubsequence(imps: seq<Implicant>, i: nat)
    ensures Subsequence(RoundsFrom(imps, i), imps)
    decreases |imps| - i
  {
    if i >= |imps| {
      SubsequenceReflexive(imps);
    } else {
      var next := Round(imps, i);
      RoundsSubsequence(next, i + 1);
      match FirstCompatible(imps, i, 0)
      case None =>
      case Some(j) =>
        DropOne(imps, j);
        SubsequenceTransitive(RoundsFrom(next, i + 1), next, imps);
    }
  }

  /**
   * Compatibility is overlap, not subsumption: from [1*, *1] the round for 1* pops *1, although
   * only *1 covers the constituent 01.
   */
  lemma OverlapExample()
    ensures RoundsFrom([[One, Star], [Star, One]], 0) == [[One, Star]]
    ensures Matches([Zero, One], [Star, One]) && !Matches([Zero, One], [One, Star])
  {
    var imps: seq<Implicant> := [[One, Star], [Star, One]];
    assert Compatible(imps[0], imps[1]);
    assert FirstCompatible(imps, 0, 0) == Some(1);
    assert Round(imps, 0) == [[One, Star]];
    var c: Implicant := [Zero, One];
    var a: Implicant := [One, Star];
    assert c[0] != a[0] && a[0] != Star;
  }
}
