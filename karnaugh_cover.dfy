/**
 * The covering half of `karnaugh_map_minimization` (lab_3/src/corno/minimizer.py:343-437 and
 * the older lab_3/src/corno/computational.py:309-382): the candidate groups of all
 * {None, 0, 1} assignments, the greedy cover of the target cells, the pruning of redundant
 * groups and the rendering of the chosen assignments as terms.
 */
module KarnaughCover {
  import opened Wrappers
  import opened Lists
  import opened Text
  import opened TruthTables
  import opened Implicants
  import opened Chart
  import opened Karnaugh

  /** A pair `(assignment, group)` of the candidate list. */
  datatype Group = Group(assignment: Assignment, cells: seq<Cell>)

  /** `set(cells)` */
  function CellSet(cells: seq<Cell>): set<Cell>
  {
    set x | x in cells
  }

  /** The cells of all groups of a list. */
  function Union(groups: seq<Group>): set<Cell>
  {
    set g, x | g in groups && x in g.cells :: x
  }

  /** The cells of the map that hold the target value, row-major: `positions_to_cover`. */
  function TargetCells(m: KarnaughMap, target: int): seq<Cell>
  {
    RowMajorWhere(Pow2(m.rowVarNum), Pow2(m.colVarNum), OnTarget(m, target))
  }

  /** The test `karnaugh_map[i][j] == target_value`. */
  function OnTarget(m: KarnaughMap, target: int): Cell -> bool
  {
    (x: Cell) => x.0 < |m.cells| && x.1 < |m.cells[x.0]| && m.cells[x.0][x.1] == target
  }

  /** Every cell of the list lies on the map and holds the target value. */
  predicate AllTarget(m: KarnaughMap, cells: seq<Cell>, target: int)
  {
    forall x | x in cells :: x.0 < |m.cells| && x.1 < |m.cells[x.0]| && m.cells[x.0][x.1] == target
  }

  // ---------------------------------------------------------------------------------------
  // The candidate groups

  /** The groups of the assignments of `asgs`, in order, that are non-empty and all on target. */
  function Candidates(m: KarnaughMap, asgs: seq<Assignment>, target: int): seq<Group>
  {
    if |asgs| == 0 then []
    else
      var a := asgs[|asgs| - 1];
      var g := GroupOf(m, a);
      Candidates(m, asgs[..|asgs| - 1], target) + (if |g| > 0 && AllTarget(m, g, target) then [Group(a, g)] else [])
  }

  /** Every candidate is the non-empty, all-target group of one of the assignments. */
  lemma {:induction false} CandidatesSound(m: KarnaughMap, asgs: seq<Assignment>, target: int)
    ensures forall g | g in Candidates(m, asgs, target) ::
      g.assignment in asgs && g.cells == GroupOf(m, g.assignment) && |g.cells| > 0 && AllTarget(m, g.cells, target)
  {
    if |asgs| > 0 {
      CandidatesSound(m, asgs[..|asgs| - 1], target);
    }
  }

  /** Every non-empty, all-target group of an assignment of `asgs` is a candidate. */
  lemma {:induction false} CandidatesComplete(m: KarnaughMap, asgs: seq<Assignment>, target: int, k: nat)
    requires k < |asgs|
    requires |GroupOf(m, asgs[k])| > 0 && AllTarget(m, GroupOf(m, asgs[k]), target)
    ensures Group(asgs[k], GroupOf(m, asgs[k])) in Candidates(m, asgs, target)
  {
    var front := asgs[..|asgs| - 1];
    if k < |asgs| - 1 {
      assert asgs[k] == front[k];
      CandidatesComplete(m, front, target, k);
    }
  }

  /** One more assignment adds its group when that group is non-empty and all target. */
  lemma CandidatesSnoc(m: KarnaughMap, asgs: seq<Assignment>, t: nat, target: int)
    requires t < |asgs|
    ensures var g := GroupOf(m, asgs[t]);
      Candidates(m, asgs[..t + 1], target)
      == Candidates(m, asgs[..t], target) + (if |g| > 0 && AllTarget(m, g, target) then [Group(asgs[t], g)] else [])
  {
    assert asgs[..t + 1][..t] == asgs[..t];
  }

  /** The loop of `karnaugh_map_minimization` that builds `groups`. */
  method CandidateGroups(m: KarnaughMap, n: nat, target: int) returns (groups: seq<Group>)
    requires Shaped(m, n)
    ensures groups == Candidates(m, Assignments(n), target)
  {
    var asgs := Assignments(n);
    groups := [];
    for t := 0 to |asgs|
      invariant groups == Candidates(m, asgs[..t], target)
    {
      var group := GetGroup(asgs[t], m.rowSeq, m.colSeq, m.rowVarNum, m.colVarNum);
      CandidatesSnoc(m, asgs, t, target);
      if |group| > 0 && AllTarget(m, group, target) {
        groups := groups + [Group(asgs[t], group)];
      }
    }
    assert asgs[..|asgs|] == asgs;
  }

  /** The assignment fixing every variable to the bits of one row. */
  function FullAssignment(bits: seq<int>): (a: Assignment)
    ensures |a| == |bits|
  {
    seq(|bits|, k requires 0 <= k < |bits| => Some(bits[k]))
  }

  /** The fully fixed assignment of a cell's row selects that cell and no other. */
  lemma FullAssignmentGroup(m: KarnaughMap, n: nat, x: Cell)
    requires Shaped(m, n) && InGrid(m, x)
    ensures x in GroupOf(m, FullAssignment(Bits(IndexOf(m, x), n)))
    ensures forall y | y in GroupOf(m, FullAssignment(Bits(IndexOf(m, x), n))) :: y == x
  {
    var a := FullAssignment(Bits(IndexOf(m, x), n));
    GroupMembers(m, n, a);
    IndexOfBound(m, n, x);
    forall y | InGrid(m, y) && Agrees(a, Bits(IndexOf(m, y), n)) ensures y == x {
      IndexOfBound(m, n, y);
      assert Bits(IndexOf(m, y), n) == Bits(IndexOf(m, x), n);
      BitsValue(IndexOf(m, y), n);
      BitsValue(IndexOf(m, x), n);
      CellIndexInjective(m, n, x.0, x.1, y.0, y.1);
    }
  }

  /** Over n variables, the candidates cover exactly the target cells. */
  lemma CandidatesCoverTargets(m: KarnaughMap, n: nat, target: int)
    requires Shaped(m, n)
    ensures Union(Candidates(m, Assignments(n), target)) == CellSet(TargetCells(m, target))
  {
    CandidatesWithinTargets(m, n, target);
    TargetsWithinCandidates(m, n, target);
  }

  /** Every cell of a candidate holds the target value. */
  lemma CandidatesWithinTargets(m: KarnaughMap, n: nat, target: int)
    requires Shaped(m, n)
    ensures Union(Candidates(m, Assignments(n), target)) <= CellSet(TargetCells(m, target))
  {
    var cs := Candidates(m, Assignments(n), target);
    var p := OnTarget(m, target);
    RowMajorWhereMembers(Pow2(m.rowVarNum), Pow2(m.colVarNum), p);
    forall x | x in Union(cs) ensures x in CellSet(TargetCells(m, target)) {
      var g :| g in cs && x in g.cells;
      assert AllTarget(m, g.cells, target) by {
        CandidatesSound(m, Assignments(n), target);
      }
      assert x.0 < Pow2(m.rowVarNum) && x.1 < Pow2(m.colVarNum) && p(x);
      assert x in TargetCells(m, target);
    }
  }

  /** Every target cell lies in a candidate. */
  lemma TargetsWithinCandidates(m: KarnaughMap, n: nat, target: int)
    requires Shaped(m, n)
    ensures CellSet(TargetCells(m, target)) <= Union(Candidates(m, Assignments(n), target))
  {
    RowMajorWhereMembers(Pow2(m.rowVarNum), Pow2(m.colVarNum), OnTarget(m, target));
    forall x | x in CellSet(TargetCells(m, target)) ensures x in Union(Candidates(m, Assignments(n), target)) {
      TargetInCandidate(m, n, target, x);
    }
  }

  /** A target cell lies in the candidate group of the assignment fixing all bits of its row. */
  lemma TargetInCandidate(m: KarnaughMap, n: nat, target: int, x: Cell)
    requires Shaped(m, n) && x.0 < Pow2(m.rowVarNum) && x.1 < Pow2(m.colVarNum) && OnTarget(m, target)(x)
    ensures x in Union(Candidates(m, Assignments(n), target))
  {
    var asgs := Assignments(n);
    var a := FullAssignment(Bits(IndexOf(m, x), n));
    FullAssignmentGroup(m, n, x);
    assert OverChoices(a);
    AssignmentsComplete(a);
    var k :| 0 <= k < |asgs| && asgs[k] == a;
    CandidatesComplete(m, asgs, target, k);
  }

  // ---------------------------------------------------------------------------------------
  // The greedy cover

  /** `len(set(grp[1]) - covered)`: how many uncovered cells a group would add. */
  function NewCover(g: Group, covered: set<Cell>): nat
  {
    |CellSet(g.cells) - covered|
  }

  /**
   * The position of the group `max` picks among the first k: one of greatest new coverage,
   * the first such (Python's `max` keeps the first maximal element).
   */
  function BestIn(groups: seq<Group>, covered: set<Cell>, k: nat): (b: nat)
    requires 0 < k <= |groups|
    ensures b < k
    ensures forall i | 0 <= i < k :: NewCover(groups[i], covered) <= NewCover(groups[b], covered)
    ensures forall i | 0 <= i < b :: NewCover(groups[i], covered) < NewCover(groups[b], covered)
  {
    if k == 1 then 0
    else
      var b := BestIn(groups, covered, k - 1);
      if NewCover(groups[k - 1], covered) > NewCover(groups[b], covered) then k - 1 else b
  }

  /**
   * The greedy loop from a state (covered cells, selected groups): stop once the covered
   * cells are the targets, fail when no group adds coverage, else take the best group.
   */
  function Greedy(groups: seq<Group>, targets: set<Cell>, covered: set<Cell>, selected: seq<Group>): Option<seq<Group>>
    decreases |Union(groups) - covered|
  {
    if covered == targets then Some(selected)
    else if |groups| == 0 then None
    else
      var g := groups[BestIn(groups, covered, |groups|)];
      if NewCover(g, covered) == 0 then None
      else
        GreedyProgress(groups, covered, g);
        Greedy(groups, targets, covered + CellSet(g.cells), selected + [g])
  }

  /** A group adding coverage leaves fewer of the groups' cells uncovered. */
  lemma GreedyProgress(groups: seq<Group>, covered: set<Cell>, g: Group)
    requires g in groups && NewCover(g, covered) > 0
    ensures |Union(groups) - (covered + CellSet(g.cells))| < |Union(groups) - covered|
  {
    var added := CellSet(g.cells) - covered;
    assert (forall y :: y !in added) ==> added == {};
    var x :| x in added;
    StrictSubsetCard(Union(groups) - (covered + CellSet(g.cells)), Union(groups) - covered, x);
  }

  /** The greedy loop of `karnaugh_map_minimization` (minimizer.py). */
  method GreedyCover(groups: seq<Group>, targets: set<Cell>) returns (r: Result<seq<Group>, string>)
    ensures Greedy(groups, targets, {}, []).Some? ==> r == Ok(Greedy(groups, targets, {}, []).value)
    ensures Greedy(groups, targets, {}, []).None? ==> r == Err("Cannot cover all positions with Karnaugh grouping")
  {
    var covered: set<Cell> := {};
    var selected: seq<Group> := [];
    while covered != targets
      invariant Greedy(groups, targets, covered, selected) == Greedy(groups, targets, {}, [])
      decreases |Union(groups) - covered|
    {
      if |groups| == 0 {
        return Err("Cannot cover all positions with Karnaugh grouping");
      }
      var best := groups[BestIn(groups, covered, |groups|)];
      if NewCover(best, covered) == 0 {
        return Err("Cannot cover all positions with Karnaugh grouping");
      }
      GreedyProgress(groups, covered, best);
      selected := selected + [best];
      covered := covered + CellSet(best.cells);
    }
    return Ok(selected);
  }

  /** `select_minimal_cover`, the same greedy loop with the maximum found by an explicit scan. */
  method SelectMinimalCover(groups: seq<Group>, positions: seq<Cell>) returns (r: Result<seq<Group>, string>)
    ensures Greedy(groups, CellSet(positions), {}, []).Some? ==> r == Ok(Greedy(groups, CellSet(positions), {}, []).value)
    ensures Greedy(groups, CellSet(positions), {}, []).None? ==> r == Err("Cannot cover all positions")
  {
    var targets := CellSet(positions);
    var covered: set<Cell> := {};
    var selected: seq<Group> := [];
    while covered != targets
      invariant Greedy(groups, targets, covered, selected) == Greedy(groups, targets, {}, [])
      decreases |Union(groups) - covered|
    {
      var best := BestNew(groups, covered);
      if best.None? {
        return Err("Cannot cover all positions");
      }
      GreedyProgress(groups, covered, best.value);
      selected := selected + [best.value];
      covered := covered + CellSet(best.value.cells);
    }
    return Ok(selected);
  }

  /** The inner scan of `select_minimal_cover`: the first group of strictly greatest new coverage. */
  method BestNew(groups: seq<Group>, covered: set<Cell>) returns (best: Option<Group>)
    ensures best.None? <==> |groups| == 0 || NewCover(groups[BestIn(groups, covered, |groups|)], covered) == 0
    ensures best.Some? ==> best.value == groups[BestIn(groups, covered, |groups|)]
  {
    var maxCover := 0;
    best := None;
    for k := 0 to |groups|
      invariant k == 0 ==> maxCover == 0 && best == None
      invariant k > 0 ==> maxCover == NewCover(groups[BestIn(groups, covered, k)], covered)
      invariant k > 0 ==> best == if maxCover == 0 then None else Some(groups[BestIn(groups, covered, k)])
    {
      var newCover := NewCover(groups[k], covered);
      if newCover > maxCover {
        maxCover := newCover;
        best := Some(groups[k]);
      }
    }
  }

  /**
   * When the groups cover exactly the targets, the greedy loop succeeds: it ends with
   * selected groups, all distinct and all taken from the list, covering exactly the targets.
   */
  lemma {:induction false} GreedyCovers(groups: seq<Group>, targets: set<Cell>, covered: set<Cell>, selected: seq<Group>)
    requires Union(groups) == targets && covered == Union(selected) && covered <= targets
    requires Distinct(selected) && forall g | g in selected :: g in groups
    ensures Greedy(groups, targets, covered, selected).Some?
    ensures Union(Greedy(groups, targets, covered, selected).value) == targets
    ensures Distinct(Greedy(groups, targets, covered, selected).value)
    ensures forall g | g in Greedy(groups, targets, covered, selected).value :: g in groups
    decreases |Union(groups) - covered|
  {
    if covered != targets {
      var h := Uncovered(groups, targets, covered);
      var g := groups[BestIn(groups, covered, |groups|)];
      assert NewCover(g, covered) > 0;
      GreedyStep(groups, covered, selected, g);
      GreedyProgress(groups, covered, g);
      GreedyCovers(groups, targets, covered + CellSet(g.cells), selected + [g]);
    }
  }

  /** While targets are uncovered, some group of a list whose union is the targets adds coverage. */
  lemma Uncovered(groups: seq<Group>, targets: set<Cell>, covered: set<Cell>) returns (h: Group)
    requires Union(groups) == targets && covered <= targets && covered != targets
    ensures h in groups && NewCover(h, covered) > 0
  {
    var missing := targets - covered;
    assert targets == covered + missing;
    assert (forall y :: y !in missing) ==> missing == {};
    var x :| x in missing;
    h :| h in groups && x in h.cells;
    assert x in CellSet(h.cells) - covered;
  }

  /** Taking a group that adds coverage keeps the selection distinct and its union the covered cells. */
  lemma GreedyStep(groups: seq<Group>, covered: set<Cell>, selected: seq<Group>, g: Group)
    requires covered == Union(selected) && Distinct(selected) && NewCover(g, covered) > 0
    ensures Distinct(selected + [g])
    ensures Union(selected + [g]) == covered + CellSet(g.cells)
  {
    assert g in selected ==> CellSet(g.cells) <= covered;
  }

  // ---------------------------------------------------------------------------------------
  // Pruning the greedy selection

  /** The loop `for _, cells in others: cover_without |= set(cells)`. */
  method CoverOf(groups: seq<Group>) returns (covered: set<Cell>)
    ensures covered == Union(groups)
  {
    covered := {};
    for k := 0 to |groups|
      invariant covered == Union(groups[..k])
    {
      UnionSnoc(groups[..k], groups[k]);
      covered := covered + CellSet(groups[k].cells);
      assert groups[..k + 1] == groups[..k] + [groups[k]];
    }
    assert groups[..|groups|] == groups;
  }

  lemma UnionSnoc(s: seq<Group>, g: Group)
    ensures Union(s + [g]) == Union(s) + CellSet(g.cells)
  {
    assert forall h | h in s + [g] :: h in s || h == g;
  }

  /** One round of the pruning loop: drop grp when the other groups still cover the targets. */
  function PruneStep(final: seq<Group>, grp: Group, targets: set<Cell>): seq<Group>
  {
    if targets <= Union(Without(final, grp)) then RemoveFirst(final, grp) else final
  }

  /** The pruning loop over the groups of `order`, from the list `final`. */
  function PruneSteps(order: seq<Group>, final: seq<Group>, targets: set<Cell>): seq<Group>
  {
    if |order| == 0 then final else PruneSteps(order[1..], PruneStep(final, order[0], targets), targets)
  }

  /**
   * The pruning loop of `karnaugh_map_minimization`: each selected group is dropped from a
   * copy of the selection when the groups left without it still cover the targets. The group
   * is always still in the copy, so `remove` never raises.
   */
  method PruneGroups(selected: seq<Group>, targets: set<Cell>) returns (final: seq<Group>)
    ensures final == PruneSteps(selected, selected, targets)
  {
    final := selected;
    for k := 0 to |selected|
      invariant PruneSteps(selected[k..], final, targets) == PruneSteps(selected, selected, targets)
      invariant multiset(selected[k..]) <= multiset(final)
    {
      var grp := selected[k];
      var others := Without(final, grp);
      var coverWithout := CoverOf(others);
      var next := final;
      if targets <= coverWithout {
        assert grp in multiset(final);
        next := RemoveFirst(final, grp);
      }
      PendingStep(selected, k, final, next, targets);
      final := next;
    }
  }

  /** The groups still to visit remain in the copy after a round. */
  lemma PendingStep(selected: seq<Group>, k: nat, final: seq<Group>, next: seq<Group>, targets: set<Cell>)
    requires k < |selected| && multiset(selected[k..]) <= multiset(final)
    requires next == final || next == RemoveFirst(final, selected[k])
    ensures multiset(selected[k + 1..]) <= multiset(next)
    ensures PruneSteps(selected[k..], final, targets) == PruneSteps(selected[k + 1..], PruneStep(final, selected[k], targets), targets)
  {
    assert selected[k..] == [selected[k]] + selected[k + 1..];
  }

  /** Without g, the other groups of the list no longer cover the targets. */
  predicate Needed(final: seq<Group>, g: Group, targets: set<Cell>)
  {
    !(targets <= Union(Without(final, g)))
  }

  /** Pruning keeps the targets covered and keeps only groups of the list it started from. */
  lemma {:induction false} PruneStepsCover(order: seq<Group>, final: seq<Group>, targets: set<Cell>)
    requires targets <= Union(final)
    ensures targets <= Union(PruneSteps(order, final, targets))
    ensures forall g | g in PruneSteps(order, final, targets) :: g in final
  {
    if |order| > 0 {
      var grp := order[0];
      var next := PruneStep(final, grp, targets);
      forall y | y in final && y != grp ensures y in RemoveFirst(final, grp) {
        RemoveFirstMembers(final, grp, y);
      }
      forall y | y in next ensures y in final {
        RemoveFirstMembers(final, grp, y);
      }
      PruneStepsCover(order[1..], next, targets);
    }
  }

  /** A group needed in a list is needed in any list of fewer groups. */
  lemma NeededShrinks(final: seq<Group>, next: seq<Group>, g: Group, targets: set<Cell>)
    requires forall y | y in next :: y in final
    requires Needed(final, g, targets)
    ensures Needed(next, g, targets)
  {
    assert Union(Without(next, g)) <= Union(Without(final, g));
  }

  /**
   * After pruning, every group left is needed: dropping any one of them uncovers a target.
   * A group kept in its round was needed then, and later rounds only remove groups.
   */
  lemma {:induction false} PruneStepsIrredundant(order: seq<Group>, final: seq<Group>, targets: set<Cell>)
    requires Distinct(final)
    requires forall g | g in final :: g in order || Needed(final, g, targets)
    ensures Distinct(PruneSteps(order, final, targets))
    ensures forall g | g in PruneSteps(order, final, targets) :: Needed(PruneSteps(order, final, targets), g, targets)
  {
    if |order| > 0 {
      var next := PruneStep(final, order[0], targets);
      DistinctRemoveFirst(final, order[0]);
      PruneStepKeepsNeeded(order, final, targets);
      PruneStepsIrredundant(order[1..], next, targets);
    }
  }

  /** One round: a group kept is the visited one, which was needed, or needed before and still needed. */
  lemma PruneStepKeepsNeeded(order: seq<Group>, final: seq<Group>, targets: set<Cell>)
    requires |order| > 0 && Distinct(final)
    requires forall g | g in final :: g in order || Needed(final, g, targets)
    ensures forall g | g in PruneStep(final, order[0], targets) :: g in order[1..] || Needed(PruneStep(final, order[0], targets), g, targets)
  {
    var grp := order[0];
    var next := PruneStep(final, grp, targets);
    DistinctRemoveFirst(final, grp);
    forall y | y in next ensures y in final {
      RemoveFirstMembers(final, grp, y);
    }
    assert order == [grp] + order[1..];
    forall g | g in next ensures g in order[1..] || Needed(next, g, targets) {
      if g !in order[1..] {
        if g == grp {
          assert next == final;
        } else {
          NeededShrinks(final, next, g, targets);
        }
      }
    }
  }

  // ---------------------------------------------------------------------------------------
  // Rendering

  /** The literals of `group_to_term`, one per fixed position, in position order. */
  function TermLiterals(variables: seq<string>, a: Assignment, isPdnf: bool): seq<string>
    requires |a| <= |variables|
  {
    if |a| == 0 then []
    else
      var k := |a| - 1;
      TermLiterals(variables, a[..k], isPdnf)
        + (if a[k].None? then [] else [Literal(variables[k], if isPdnf then a[k].value != 1 else a[k].value == 1)])
  }

  /** `group_to_term`: the literals joined by "&" (PDNF) or "|" (PCNF), or "1" / "0" when none is fixed. */
  function GroupToTerm(variables: seq<string>, a: Assignment, isPdnf: bool): string
    requires |a| <= |variables|
  {
    var literals := TermLiterals(variables, a, isPdnf);
    if |literals| == 0 then (if isPdnf then "1" else "0") else Join(literals, if isPdnf then "&" else "|")
  }

  /** An assignment as an implicant: "*" where it leaves a variable free. */
  function AsImplicant(a: Assignment): (imp: Implicant)
    ensures |imp| == |a|
  {
    seq(|a|, k requires 0 <= k < |a| => if a[k].None? then Star else if a[k].value == 1 then One else Zero)
  }

  lemma {:induction false} TermLiteralsAsImplicant(variables: seq<string>, a: Assignment, isPdnf: bool)
    requires |a| <= |variables|
    ensures TermLiterals(variables, a, isPdnf) == Literals(variables, AsImplicant(a), isPdnf)
  {
    if |a| > 0 {
      var k := |a| - 1;
      TermLiteralsAsImplicant(variables, a[..k], isPdnf);
      assert AsImplicant(a)[..k] == AsImplicant(a[..k]);
    }
  }

  /**
   * `group_to_term` gives the chart path's `convert_bin_to_var_form` of the same group read as
   * an implicant (the same polarity rule: in a PDNF a literal is negated unless its value is 1,
   * in a PCNF exactly when it is 1), except that a group fixing no variable is "1" or "0".
   */
  lemma GroupToTermSpec(variables: seq<string>, a: Assignment, isPdnf: bool)
    requires |a| <= |variables|
    ensures GroupToTerm(variables, a, isPdnf)
      == if StarCount(AsImplicant(a)) == |a| then (if isPdnf then "1" else "0") else VarForm(variables, AsImplicant(a), isPdnf)
  {
    TermLiteralsAsImplicant(variables, a, isPdnf);
    LiteralsCount(variables, AsImplicant(a), isPdnf);
  }

  /** `"(" + ")|(".join(terms) + ")"` (PDNF) or with ")&(" (PCNF). */
  function KarnaughForm(variables: seq<string>, chosen: seq<Group>, isPdnf: bool): (r: string)
    requires forall g | g in chosen :: |g.assignment| <= |variables|
    ensures |r| > 0 && r[0] == '('
  {
    var terms := seq(|chosen|, k requires 0 <= k < |chosen| => GroupToTerm(variables, chosen[k].assignment, isPdnf));
    "(" + Join(terms, if isPdnf then ")|(" else ")&(") + ")"
  }

  // ---------------------------------------------------------------------------------------
  // What the chosen groups mean for the table

  /** Every chosen group fixes exactly n positions' worth of assignment. */
  ghost predicate OverVariables(chosen: seq<Group>, n: nat)
  {
    forall g | g in chosen :: |g.assignment| == n
  }

  /** The chosen assignments agree with exactly the rows of the table whose result is the target. */
  ghost predicate ExactCover(table: seq<seq<int>>, n: nat, chosen: seq<Group>, target: int)
    requires RowsNonEmpty(table) && OverVariables(chosen, n)
  {
    forall i | 0 <= i < |table| ::
      Last(table[i]) == target <==> exists g | g in chosen :: Agrees(g.assignment, Bits(i, n))
  }

  /** Each chosen assignment agrees with some target row that no other chosen assignment agrees with. */
  ghost predicate EachNeeded(table: seq<seq<int>>, n: nat, chosen: seq<Group>, target: int)
    requires RowsNonEmpty(table) && OverVariables(chosen, n)
  {
    forall g | g in chosen :: exists i | 0 <= i < |table| && Last(table[i]) == target ::
      Agrees(g.assignment, Bits(i, n)) && forall h | h in chosen && h != g :: !Agrees(h.assignment, Bits(i, n))
  }

  /** Groups as the candidate list holds them: the all-target group of an n-position assignment. */
  ghost predicate GroupsOfMap(m: KarnaughMap, n: nat, chosen: seq<Group>, target: int)
  {
    forall g | g in chosen :: |g.assignment| == n && g.cells == GroupOf(m, g.assignment) && AllTarget(m, g.cells, target)
  }

  lemma CandidatesOfMap(m: KarnaughMap, n: nat, target: int, chosen: seq<Group>)
    requires forall g | g in chosen :: g in Candidates(m, Assignments(n), target)
    ensures GroupsOfMap(m, n, chosen, target)
  {
    CandidatesSound(m, Assignments(n), target);
    forall g | g in chosen ensures |g.assignment| == n {
      AssignmentsValid(n, g.assignment);
    }
  }

  /** The cell a table row is shown in, with the row's result. */
  lemma CellOfRow(m: KarnaughMap, table: seq<seq<int>>, n: nat, i: nat) returns (x: Cell)
    requires IsMapOf(m, table, n) && i < Pow2(n)
    ensures InGrid(m, x) && IndexOf(m, x) == i && x.0 < Pow2(m.rowVarNum) && x.1 < Pow2(m.colVarNum)
    ensures x.0 < |m.cells| && x.1 < |m.cells[x.0]| && i < |table| && |table[i]| > 0
    ensures m.cells[x.0][x.1] == Last(table[i])
  {
    var i0, j0 := CellOf(m, n, i);
    x := (i0, j0);
    assert RowHolds(m.cells[i0], table, m.rowSeq, m.colSeq, m.colVarNum, i0, |m.cells[i0]|);
  }

  /** A table row has the target result exactly when some chosen group agrees with it. */
  lemma RowCovered(m: KarnaughMap, table: seq<seq<int>>, n: nat, target: int, chosen: seq<Group>, i: nat)
    requires IsMapOf(m, table, n) && |table| == Pow2(n) && RowsNonEmpty(table) && i < |table|
    requires GroupsOfMap(m, n, chosen, target) && CellSet(TargetCells(m, target)) <= Union(chosen)
    ensures Last(table[i]) == target <==> exists g | g in chosen :: Agrees(g.assignment, Bits(i, n))
  {
    var x := CellOfRow(m, table, n, i);
    if Last(table[i]) == target {
      RowMajorWhereMembers(Pow2(m.rowVarNum), Pow2(m.colVarNum), OnTarget(m, target));
      assert x in CellSet(TargetCells(m, target));
      var g :| g in chosen && x in g.cells;
      GroupMembers(m, n, g.assignment);
    }
    forall g | g in chosen && Agrees(g.assignment, Bits(i, n)) ensures Last(table[i]) == target {
      GroupMembers(m, n, g.assignment);
      assert x in g.cells;
    }
  }

  lemma CoverRows(m: KarnaughMap, table: seq<seq<int>>, n: nat, target: int, chosen: seq<Group>)
    requires IsMapOf(m, table, n) && |table| == Pow2(n) && RowsNonEmpty(table)
    requires GroupsOfMap(m, n, chosen, target) && CellSet(TargetCells(m, target)) <= Union(chosen)
    ensures OverVariables(chosen, n) && ExactCover(table, n, chosen, target)
  {
    forall i | 0 <= i < |table|
      ensures Last(table[i]) == target <==> exists g | g in chosen :: Agrees(g.assignment, Bits(i, n))
    {
      RowCovered(m, table, n, target, chosen, i);
    }
  }

  /** A needed group agrees with a target row that no other chosen group agrees with. */
  lemma NeededRow(m: KarnaughMap, table: seq<seq<int>>, n: nat, target: int, chosen: seq<Group>, g: Group)
      returns (i: nat)
    requires IsMapOf(m, table, n) && |table| == Pow2(n) && RowsNonEmpty(table)
    requires GroupsOfMap(m, n, chosen, target) && CellSet(TargetCells(m, target)) <= Union(chosen)
    requires g in chosen && Needed(chosen, g, CellSet(TargetCells(m, target)))
    ensures i < |table| && Last(table[i]) == target && Agrees(g.assignment, Bits(i, n))
    ensures forall h | h in chosen && h != g :: !Agrees(h.assignment, Bits(i, n))
  {
    var targets := CellSet(TargetCells(m, target));
    var x := Outside(targets, Union(Without(chosen, g)));
    RowMajorWhereMembers(Pow2(m.rowVarNum), Pow2(m.colVarNum), OnTarget(m, target));
    var holder :| holder in chosen && x in holder.cells;
    assert holder == g;
    GroupMembers(m, n, g.assignment);
    i := IndexOf(m, x);
    IndexOfBound(m, n, x);
    var x' := CellOfRow(m, table, n, i);
    CellIndexInjective(m, n, x.0, x.1, x'.0, x'.1);
    forall h | h in chosen && h != g ensures !Agrees(h.assignment, Bits(i, n)) {
      GroupMembers(m, n, h.assignment);
      assert h in Without(chosen, g);
    }
  }

  lemma NeededRows(m: KarnaughMap, table: seq<seq<int>>, n: nat, target: int, chosen: seq<Group>)
    requires IsMapOf(m, table, n) && |table| == Pow2(n) && RowsNonEmpty(table)
    requires GroupsOfMap(m, n, chosen, target) && CellSet(TargetCells(m, target)) <= Union(chosen)
    requires forall g | g in chosen :: Needed(chosen, g, CellSet(TargetCells(m, target)))
    ensures OverVariables(chosen, n) && EachNeeded(table, n, chosen, target)
  {
    forall g | g in chosen ensures exists i | 0 <= i < |table| && Last(table[i]) == target ::
      Agrees(g.assignment, Bits(i, n)) && forall h | h in chosen && h != g :: !Agrees(h.assignment, Bits(i, n))
    {
      var i := NeededRow(m, table, n, target, chosen, g);
    }
  }

  /** The map has no target cell exactly when the table has no target row. */
  lemma NoTargetRows(m: KarnaughMap, table: seq<seq<int>>, n: nat, target: int)
    requires IsMapOf(m, table, n) && |table| == Pow2(n) && RowsNonEmpty(table)
    ensures |TargetCells(m, target)| == 0 <==> forall i | 0 <= i < |table| :: Last(table[i]) != target
  {
    forall i | 0 <= i < |table| && Last(table[i]) == target ensures |TargetCells(m, target)| > 0 {
      TargetRowShown(m, table, n, target, i);
    }
    if |TargetCells(m, target)| > 0 {
      var i := TargetCellRow(m, table, n, target);
    }
  }

  lemma TargetRowShown(m: KarnaughMap, table: seq<seq<int>>, n: nat, target: int, i: nat)
    requires IsMapOf(m, table, n) && |table| == Pow2(n) && RowsNonEmpty(table)
    requires i < |table| && Last(table[i]) == target
    ensures |TargetCells(m, target)| > 0
  {
    var x := CellOfRow(m, table, n, i);
    assert OnTarget(m, target)(x);
    RowMajorWhereMembers(Pow2(m.rowVarNum), Pow2(m.colVarNum), OnTarget(m, target));
  }

  lemma TargetCellRow(m: KarnaughMap, table: seq<seq<int>>, n: nat, target: int) returns (i: nat)
    requires IsMapOf(m, table, n) && |table| == Pow2(n) && RowsNonEmpty(table)
    requires |TargetCells(m, target)| > 0
    ensures i < |table| && Last(table[i]) == target
  {
    RowMajorWhereMembers(Pow2(m.rowVarNum), Pow2(m.colVarNum), OnTarget(m, target));
    var x := TargetCells(m, target)[0];
    assert x in TargetCells(m, target);
    IndexOfBound(m, n, x);
    i := IndexOf(m, x);
    var x' := CellOfRow(m, table, n, i);
    CellIndexInjective(m, n, x.0, x.1, x'.0, x'.1);
  }

  // ---------------------------------------------------------------------------------------
  // karnaugh_map_minimization

  /** `target_value`: 1 for a PDNF, 0 for a PCNF. */
  function Target(isPdnf: bool): int
  {
    if isPdnf then 1 else 0
  }

  /**
   * The pruned greedy selection over the candidates of a table's map agrees with exactly the
   * target rows, and each of its groups is the only one agreeing with some target row.
   */
  lemma ChoiceCorrect(m: KarnaughMap, table: seq<seq<int>>, n: nat, target: int,
                      groups: seq<Group>, selected: seq<Group>, final: seq<Group>)
    requires IsMapOf(m, table, n) && |table| == Pow2(n) && RowsNonEmpty(table)
    requires groups == Candidates(m, Assignments(n), target)
    requires Union(selected) == CellSet(TargetCells(m, target)) && Distinct(selected)
    requires forall g | g in selected :: g in groups
    requires final == PruneSteps(selected, selected, CellSet(TargetCells(m, target)))
    ensures OverVariables(final, n) && Distinct(final)
    ensures ExactCover(table, n, final, target) && EachNeeded(table, n, final, target)
  {
    var targets := CellSet(TargetCells(m, target));
    PruneStepsCover(selected, selected, targets);
    PruneStepsIrredundant(selected, selected, targets);
    CandidatesOfMap(m, n, target, final);
    CoverRows(m, table, n, target, final);
    NeededRows(m, table, n, target, final);
  }

  /** The greedy selection over the candidates of a table's map agrees with exactly the target rows. */
  lemma SelectionCorrect(m: KarnaughMap, table: seq<seq<int>>, n: nat, target: int,
                         groups: seq<Group>, selected: seq<Group>)
    requires IsMapOf(m, table, n) && |table| == Pow2(n) && RowsNonEmpty(table)
    requires groups == Candidates(m, Assignments(n), target)
    requires Union(selected) == CellSet(TargetCells(m, target))
    requires forall g | g in selected :: g in groups
    ensures OverVariables(selected, n) && ExactCover(table, n, selected, target)
  {
    CandidatesOfMap(m, n, target, selected);
    CoverRows(m, table, n, target, selected);
  }

  /** What `select_minimal_cover` picks from the candidate groups of a map, if it covers the target cells. */
  function GreedyChoice(m: KarnaughMap, n: nat, target: int): Option<seq<Group>>
  {
    Greedy(Candidates(m, Assignments(n), target), CellSet(TargetCells(m, target)), {}, [])
  }

  /** The greedy choice with the redundant groups pruned, as `karnaugh_map_minimization` keeps it. */
  function PrunedChoice(m: KarnaughMap, n: nat, target: int): seq<Group>
    requires GreedyChoice(m, n, target).Some?
  {
    var selected := GreedyChoice(m, n, target).value;
    PruneSteps(selected, selected, CellSet(TargetCells(m, target)))
  }

  /**
   * `karnaugh_map_minimization` (minimizer.py): at most five variables; "Doesn't exist" when no
   * row has the target value; otherwise one term per chosen group, the chosen groups being the
   * greedy cover of the target cells with the redundant groups pruned. The chosen assignments
   * agree with exactly the target rows, none of them can be dropped, and the greedy loop never
   * raises.
   */
  method KarnaughMinimization(variables: seq<string>, table: seq<seq<int>>, isPdnf: bool)
      returns (r: Result<string, string>, ghost chosen: seq<Group>)
    requires |table| == Pow2(|variables|) && RowsNonEmpty(table)
    ensures r.Err? <==> |variables| > 5
    ensures r.Err? ==> r.error == "Karnaugh map for more than 5 variables is not supported."
    ensures r.Ok? ==> (r.value == "Doesn't exist" <==> forall i | 0 <= i < |table| :: Last(table[i]) != Target(isPdnf))
    ensures r.Ok? && r.value != "Doesn't exist" ==>
      && OverVariables(chosen, |variables|) && Distinct(chosen)
      && r.value == KarnaughForm(variables, chosen, isPdnf)
      && ExactCover(table, |variables|, chosen, Target(isPdnf))
      && EachNeeded(table, |variables|, chosen, Target(isPdnf))
      && forall m | IsMapOf(m, table, |variables|) ::
           GreedyChoice(m, |variables|, Target(isPdnf)).Some? && chosen == PrunedChoice(m, |variables|, Target(isPdnf))
  {
    var n := |variables|;
    var generated := GenerateKarnaughMap(table, n);
    if generated.Err? {
      return Err(generated.error), [];
    }
    var m := generated.value;
    var target := Target(isPdnf);
    var positions := TargetCells(m, target);
    NoTargetRows(m, table, n, target);
    if |positions| == 0 {
      return Ok("Doesn't exist"), [];
    }
    var form;
    form, chosen := CoverMap(variables, table, m, isPdnf);
    r := Ok(form);
    forall m' | IsMapOf(m', table, n)
      ensures GreedyChoice(m', n, target).Some? && chosen == PrunedChoice(m', n, target)
    {
      MapUnique(m, m', table, n);
    }
  }

  /** The part of `karnaugh_map_minimization` after the map is built and has target cells. */
  method CoverMap(variables: seq<string>, table: seq<seq<int>>, m: KarnaughMap, isPdnf: bool)
      returns (form: string, ghost chosen: seq<Group>)
    requires IsMapOf(m, table, |variables|) && |table| == Pow2(|variables|) && RowsNonEmpty(table)
    ensures OverVariables(chosen, |variables|) && Distinct(chosen)
    ensures form == KarnaughForm(variables, chosen, isPdnf)
    ensures ExactCover(table, |variables|, chosen, Target(isPdnf))
    ensures EachNeeded(table, |variables|, chosen, Target(isPdnf))
    ensures GreedyChoice(m, |variables|, Target(isPdnf)).Some? && chosen == PrunedChoice(m, |variables|, Target(isPdnf))
  {
    var n := |variables|;
    var target := Target(isPdnf);
    var positions := TargetCells(m, target);
    var groups := CandidateGroups(m, n, target);
    var targets := CellSet(positions);
    CandidatesCoverTargets(m, n, target);
    GreedyCovers(groups, targets, {}, []);
    var greedy := GreedyCover(groups, targets);
    var selected := greedy.value;
    var final := PruneGroups(selected, targets);
    ChoiceCorrect(m, table, n, target, groups, selected, final);
    form := KarnaughForm(variables, final, isPdnf);
    chosen := final;
  }

  /**
   * The older `karnaugh_map_minimization` (computational.py): "0" (PDNF) or "1" (PCNF) when no
   * row has the target value, and the greedy cover of `select_minimal_cover` without pruning.
   */
  method LegacyKarnaughMinimization(variables: seq<string>, table: seq<seq<int>>, isPdnf: bool)
      returns (r: Result<string, string>, ghost chosen: seq<Group>)
    requires |table| == Pow2(|variables|) && RowsNonEmpty(table)
    ensures r.Err? <==> |variables| > 5
    ensures r.Err? ==> r.error == "Karnaugh map for more than 5 variables is not supported."
    ensures r.Ok? ==> (r.value == (if isPdnf then "0" else "1") <==> forall i | 0 <= i < |table| :: Last(table[i]) != Target(isPdnf))
    ensures r.Ok? && r.value != (if isPdnf then "0" else "1") ==>
      && OverVariables(chosen, |variables|) && Distinct(chosen)
      && r.value == KarnaughForm(variables, chosen, isPdnf)
      && ExactCover(table, |variables|, chosen, Target(isPdnf))
      && forall m | IsMapOf(m, table, |variables|) :: GreedyChoice(m, |variables|, Target(isPdnf)) == Some(chosen)
  {
    var n := |variables|;
    var generated := GenerateKarnaughMap(table, n);
    if generated.Err? {
      return Err(generated.error), [];
    }
    var m := generated.value;
    var target := Target(isPdnf);
    var positions := TargetCells(m, target);
    NoTargetRows(m, table, n, target);
    if |positions| == 0 {
      return Ok(if isPdnf then "0" else "1"), [];
    }
    var form;
    form, chosen := LegacyCoverMap(variables, table, m, isPdnf);
    r := Ok(form);
    forall m' | IsMapOf(m', table, n)
      ensures GreedyChoice(m', n, target) == Some(chosen)
    {
      MapUnique(m, m', table, n);
    }
  }

  /** The part of the older `karnaugh_map_minimization` after the map is built and has target cells. */
  method LegacyCoverMap(variables: seq<string>, table: seq<seq<int>>, m: KarnaughMap, isPdnf: bool)
      returns (form: string, ghost chosen: seq<Group>)
    requires IsMapOf(m, table, |variables|) && |table| == Pow2(|variables|) && RowsNonEmpty(table)
    ensures OverVariables(chosen, |variables|) && Distinct(chosen)
    ensures form == KarnaughForm(variables, chosen, isPdnf)
    ensures ExactCover(table, |variables|, chosen, Target(isPdnf))
    ensures GreedyChoice(m, |variables|, Target(isPdnf)) == Some(chosen)
  {
    var n := |variables|;
    var target := Target(isPdnf);
    var positions := TargetCells(m, target);
    var groups := CandidateGroups(m, n, target);
    CandidatesCoverTargets(m, n, target);
    GreedyCovers(groups, CellSet(positions), {}, []);
    var cover := SelectMinimalCover(groups, positions);
    var selected := cover.value;
    SelectionCorrect(m, table, n, target, groups, selected);
    form := KarnaughForm(variables, selected, isPdnf);
    chosen := selected;
  }
}
