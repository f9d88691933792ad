/**
 * The two-variable cases of lab_3/tests/test_karnaugh_map.py:25-37 worked through the model:
 * the map of `a & b`, its candidate groups for either target value, the greedy cover, the
 * pruning, and the rendered forms "(a&b)" and "(b)&(a)".
 */
module KarnaughExamples {
  import opened Wrappers
  import opened Lists
  import opened Text
  import opened TruthTables
  import opened Karnaugh
  import opened KarnaughCover

  /** The truth table of `a & b` as rows a, b, result. */
  function AndTable(): seq<seq<int>>
  {
    [[0, 0, 0], [0, 1, 0], [1, 0, 0], [1, 1, 1]]
  }

  /** Its Karnaugh map: one row variable, one column variable, only cell (1, 1) holding 1. */
  function AndMap(): KarnaughMap
  {
    KarnaughMap([[0, 0], [0, 1]], ["0", "1"], ["0", "1"], [0, 1], [0, 1], 1, 1)
  }

  lemma GrayOfTwo()
    ensures GraySequence(2) == [0, 1]
  {
    assert Range(2) == [0, 1];
    assert Range(2)[1..] == [1];
    assert [1][1..] == [];
    assert GraySorted([1]) == [1];
    assert Gray(0) == 0 && Gray(1) == 1;
  }

  /** `AndMap` has the shape of a two-variable map: one row and one column variable, Gray order 0, 1. */
  lemma AndMapShaped(m: KarnaughMap)
    requires m == AndMap()
    ensures Shaped(m, 2)
  {
    GrayOfTwo();
    assert ToBinary(0, 1) == "0" && ToBinary(1, 1) == "1";
    assert Gray(0) == 0 && Gray(1) == 1;
    assert LabelsOf(2, 1) == ["0", "1"];
  }

  /** Each row of `AndMap` holds the results of its table rows. */
  lemma AndMapRows(m: KarnaughMap, table: seq<seq<int>>)
    requires m == AndMap() && table == AndTable()
    ensures RowHolds(m.cells[0], table, m.rowSeq, m.colSeq, 1, 0, 2)
    ensures RowHolds(m.cells[1], table, m.rowSeq, m.colSeq, 1, 1, 2)
  {
    assert Or(0, 0) == 0 && Or(0, 1) == 1 && Or(2, 0) == 2 && Or(2, 1) == 3;
  }

  /** `AndMap` is the map of the table. */
  lemma AndMapIsMap(m: KarnaughMap, table: seq<seq<int>>)
    requires m == AndMap() && table == AndTable()
    ensures IsMapOf(m, table, 2)
  {
    AndMapShaped(m);
    AndMapRows(m, table);
    assert |m.cells| == 2;
  }

  /** `AndMap` is the map of the table, and the only one. */
  lemma AndMapOfTable(table: seq<seq<int>>)
    requires table == AndTable()
    ensures IsMapOf(AndMap(), table, 2)
    ensures forall m | IsMapOf(m, table, 2) :: m == AndMap()
  {
    AndMapIsMap(AndMap(), table);
    forall m | IsMapOf(m, table, 2) ensures m == AndMap() {
      MapUnique(AndMap(), m, table, 2);
    }
  }

  /** The binary strings `get_group` compares against: the table indices 0..3 at width 2. */
  lemma TwoBitStrings()
    ensures ToBinary(0, 2) == "00" && ToBinary(1, 2) == "01" && ToBinary(2, 2) == "10" && ToBinary(3, 2) == "11"
  {
    assert BinaryDigits(2) == BinaryDigits(1) + "0";
    assert BinaryDigits(3) == BinaryDigits(1) + "1";
  }

  /** A two-position assignment admits the bits b0 b1. */
  predicate Fits(a: Assignment, b0: int, b1: int)
  {
    |a| == 2 && (a[0].None? || a[0].value == b0) && (a[1].None? || a[1].value == b1)
  }

  /** The cells (0, 0), (0, 1), (1, 0), (1, 1), in that order, whose bits the assignment admits. */
  function AndGroup(a: Assignment): seq<Cell>
  {
    (if Fits(a, 0, 0) then [(0, 0)] else []) + (if Fits(a, 0, 1) then [(0, 1)] else [])
      + (if Fits(a, 1, 0) then [(1, 0)] else []) + (if Fits(a, 1, 1) then [(1, 1)] else [])
  }

  /** On `AndMap` cell (i, j) shows table row 2i + j, so `get_group` collects `AndGroup`. */
  lemma AndMapGroup(m: KarnaughMap, a: Assignment)
    requires m == AndMap() && |a| == 2
    ensures GroupOf(m, a) == AndGroup(a)
  {
    var p := Satisfying(a, m.rowSeq, m.colSeq, m.colVarNum);
    TwoBitStrings();
    assert Or(0, 0) == 0 && Or(0, 1) == 1 && Or(2, 0) == 2 && Or(2, 1) == 3;
    assert p((0, 0)) == Fits(a, 0, 0) && p((0, 1)) == Fits(a, 0, 1);
    assert p((1, 0)) == Fits(a, 1, 0) && p((1, 1)) == Fits(a, 1, 1);
    assert RowWhere(0, 2, p) == RowWhere(0, 1, p) + (if p((0, 1)) then [(0, 1)] else []);
    assert RowWhere(1, 2, p) == RowWhere(1, 1, p) + (if p((1, 1)) then [(1, 1)] else []);
    assert RowMajorWhere(2, 2, p) == RowMajorWhere(1, 2, p) + RowWhere(1, 2, p);
    assert RowMajorWhere(1, 2, p) == [] + RowWhere(0, 2, p);
  }

  lemma PrefixedPairs(v: Option<int>)
    ensures Prefixed(v, [[None], [Some(0)], [Some(1)]]) == [[v, None], [v, Some(0)], [v, Some(1)]]
  {
    var r := Prefixed(v, [[None], [Some(0)], [Some(1)]]);
    assert r[0] == [v, None] && r[1] == [v, Some(0)] && r[2] == [v, Some(1)];
  }

  /** The three assignments of `product` that start with v. */
  function Row(v: Option<int>): seq<Assignment>
  {
    [[v, None], [v, Some(0)], [v, Some(1)]]
  }

  /** `product([None, 0, 1], repeat=2)`, the first position varying slowest. */
  lemma AssignmentsOfTwo(n: nat)
    requires n == 2
    ensures Assignments(n) == Row(None) + Row(Some(0)) + Row(Some(1))
  {
    var one := Assignments(1);
    assert Assignments(0) == [[]];
    assert Prefixed(None, [[]])[0] == [None];
    assert Prefixed(Some(0), [[]])[0] == [Some(0)];
    assert Prefixed(Some(1), [[]])[0] == [Some(1)];
    assert one == [[None], [Some(0)], [Some(1)]];
    PrefixedPairs(None);
    PrefixedPairs(Some(0));
    PrefixedPairs(Some(1));
    assert Assignments(2) == Prefixed(None, one) + Prefixed(Some(0), one) + Prefixed(Some(1), one);
  }

  /** The value `AndMap` shows in a cell of its grid: 1 at (1, 1) only. */
  function AndCell(x: Cell): int
  {
    if x == (1, 1) then 1 else 0
  }

  /** Every cell of the list lies in the 2 x 2 grid and shows the target value. */
  predicate AllOn(g: seq<Cell>, target: int)
  {
    |g| == 0 || (g[0].0 < 2 && g[0].1 < 2 && AndCell(g[0]) == target && AllOn(g[1..], target))
  }

  lemma {:induction false} AllOnTarget(m: KarnaughMap, g: seq<Cell>, target: int)
    requires m == AndMap()
    ensures AllTarget(m, g, target) <==> AllOn(g, target)
  {
    assert m.cells == [[0, 0], [0, 1]];
    if |g| > 0 {
      AllOnTarget(m, g[1..], target);
      assert g == [g[0]] + g[1..];
      assert forall x | x in g :: x == g[0] || x in g[1..];
    }
  }

  /** The candidates of a concatenation are those of each part, in order. */
  lemma {:induction false} CandidatesAppend(m: KarnaughMap, xs: seq<Assignment>, ys: seq<Assignment>, target: int)
    ensures Candidates(m, xs + ys, target) == Candidates(m, xs, target) + Candidates(m, ys, target)
  {
    if |ys| == 0 {
      assert xs + ys == xs;
    } else {
      var k := |ys| - 1;
      var a := ys[k];
      var last := if |GroupOf(m, a)| > 0 && AllTarget(m, GroupOf(m, a), target) then [Group(a, GroupOf(m, a))] else [];
      CandidatesAppend(m, xs, ys[..k], target);
      assert (xs + ys)[..|xs + ys| - 1] == xs + ys[..k] && (xs + ys)[|xs + ys| - 1] == a;
      assert Candidates(m, xs + ys, target) == Candidates(m, xs + ys[..k], target) + last;
      assert Candidates(m, ys, target) == Candidates(m, ys[..k], target) + last;
    }
  }

  /** What one assignment contributes on `AndMap`: its group, when non-empty and all on target. */
  function Kept(a: Assignment, target: int): seq<Group>
  {
    var g := AndGroup(a);
    if |g| > 0 && AllOn(g, target) then [Group(a, g)] else []
  }

  lemma KeptOnMap(m: KarnaughMap, a: Assignment, target: int)
    requires m == AndMap() && |a| == 2
    ensures Candidates(m, [a], target) == Kept(a, target)
  {
    assert [a][..0] == [];
    AndMapGroup(m, a);
    AllOnTarget(m, AndGroup(a), target);
  }

  /** The candidates of the three assignments starting with v. */
  lemma RowCandidates(m: KarnaughMap, v: Option<int>, target: int)
    requires m == AndMap()
    ensures Candidates(m, Row(v), target) == Kept([v, None], target) + Kept([v, Some(0)], target) + Kept([v, Some(1)], target)
  {
    assert Row(v) == [[v, None]] + [[v, Some(0)]] + [[v, Some(1)]];
    CandidatesAppend(m, [[v, None]] + [[v, Some(0)]], [[v, Some(1)]], target);
    CandidatesAppend(m, [[v, None]], [[v, Some(0)]], target);
    KeptOnMap(m, [v, None], target);
    KeptOnMap(m, [v, Some(0)], target);
    KeptOnMap(m, [v, Some(1)], target);
  }

  /** All candidates of `AndMap`, row by row of `product`. */
  lemma AndCandidates(m: KarnaughMap, n: nat, target: int)
    requires m == AndMap() && n == 2
    ensures Candidates(m, Assignments(n), target)
      == (Kept([None, None], target) + Kept([None, Some(0)], target) + Kept([None, Some(1)], target))
       + (Kept([Some(0), None], target) + Kept([Some(0), Some(0)], target) + Kept([Some(0), Some(1)], target))
       + (Kept([Some(1), None], target) + Kept([Some(1), Some(0)], target) + Kept([Some(1), Some(1)], target))
  {
    AssignmentsOfTwo(n);
    CandidatesAppend(m, Row(None) + Row(Some(0)), Row(Some(1)), target);
    CandidatesAppend(m, Row(None), Row(Some(0)), target);
    RowCandidates(m, None, target);
    RowCandidates(m, Some(0), target);
    RowCandidates(m, Some(1), target);
  }

  /** For target 0 the assignments a = *: only b = 0, a column of zeros. */
  lemma ZeroRowFree()
    ensures Kept([None, None], 0) + Kept([None, Some(0)], 0) + Kept([None, Some(1)], 0)
      == [Group([None, Some(0)], [(0, 0), (1, 0)])]
  {
    assert AndGroup([None, None]) == [(0, 0), (0, 1), (1, 0), (1, 1)];
    assert AndGroup([None, Some(0)]) == [(0, 0), (1, 0)];
    assert AndGroup([None, Some(1)]) == [(0, 1), (1, 1)];
    assert !AllOn([(0, 0), (0, 1), (1, 0), (1, 1)], 0);
    assert AllOn([(0, 0), (1, 0)], 0);
    assert !AllOn([(0, 1), (1, 1)], 0);
  }

  /** For target 0 the assignments a = 0: the whole row, and both its cells. */
  lemma ZeroRowZero()
    ensures Kept([Some(0), None], 0) + Kept([Some(0), Some(0)], 0) + Kept([Some(0), Some(1)], 0)
      == [Group([Some(0), None], [(0, 0), (0, 1)]), Group([Some(0), Some(0)], [(0, 0)]), Group([Some(0), Some(1)], [(0, 1)])]
  {
    assert AndGroup([Some(0), None]) == [(0, 0), (0, 1)];
    assert AndGroup([Some(0), Some(0)]) == [(0, 0)];
    assert AndGroup([Some(0), Some(1)]) == [(0, 1)];
    assert AllOn([(0, 0), (0, 1)], 0);
    assert AllOn([(0, 0)], 0);
    assert AllOn([(0, 1)], 0);
  }

  /** For target 0 the assignments a = 1: only the cell (1, 0). */
  lemma ZeroRowOne()
    ensures Kept([Some(1), None], 0) + Kept([Some(1), Some(0)], 0) + Kept([Some(1), Some(1)], 0)
      == [Group([Some(1), Some(0)], [(1, 0)])]
  {
    assert AndGroup([Some(1), None]) == [(1, 0), (1, 1)];
    assert AndGroup([Some(1), Some(0)]) == [(1, 0)];
    assert AndGroup([Some(1), Some(1)]) == [(1, 1)];
    assert !AllOn([(1, 0), (1, 1)], 0);
    assert AllOn([(1, 0)], 0);
    assert !AllOn([(1, 1)], 0);
  }

  lemma FiveInRows<T>(x1: T, x2: T, x3: T, x4: T, x5: T)
    ensures [x1] + [x2, x3, x4] + [x5] == [x1, x2, x3, x4, x5]
  {
  }

  /** The groups of value 0 (PCNF): b = 0, a = 0, then the three single zero cells. */
  lemma AndZeroCandidates(m: KarnaughMap, n: nat)
    requires m == AndMap() && n == 2
    ensures Candidates(m, Assignments(n), 0) == ZeroGroups()
  {
    var g1, g2, g3 := Group([None, Some(0)], [(0, 0), (1, 0)]), Group([Some(0), None], [(0, 0), (0, 1)]), Group([Some(0), Some(0)], [(0, 0)]);
    var g4, g5 := Group([Some(0), Some(1)], [(0, 1)]), Group([Some(1), Some(0)], [(1, 0)]);
    ZeroRowFree();
    ZeroRowZero();
    ZeroRowOne();
    FiveInRows(g1, g2, g3, g4, g5);
    AndCandidates(m, n, 0);
  }

  /** The cells holding 0 on `AndMap`: all but (1, 1). */
  lemma ZeroTargets(m: KarnaughMap)
    requires m == AndMap()
    ensures CellSet(TargetCells(m, 0)) == {(0, 0), (0, 1), (1, 0)}
  {
    var p := OnTarget(m, 0);
    var tc := TargetCells(m, 0);
    assert tc == RowMajorWhere(2, 2, p) by {
      assert Pow2(1) == 2;
    }
    RowMajorWhereMembers(2, 2, p);
    assert m.cells == [[0, 0], [0, 1]];
    forall x | x in CellSet(tc) ensures x in {(0, 0), (0, 1), (1, 0)} {
      assert x in tc && x.0 < 2 && x.1 < 2 && p(x);
    }
    assert p((0, 0)) && p((0, 1)) && p((1, 0));
    assert (0, 0) in tc && (0, 1) in tc && (1, 0) in tc;
    assert (0, 0) in CellSet(tc) && (0, 1) in CellSet(tc) && (1, 0) in CellSet(tc);
    assert {(0, 0), (0, 1), (1, 0)} <= CellSet(tc);
  }

  /** `max` over five groups picks the first of greatest new coverage. */
  lemma PickOfFive(groups: seq<Group>, covered: set<Cell>, n0: nat, n1: nat, n2: nat, n3: nat, n4: nat)
    requires |groups| == 5
    requires NewCover(groups[0], covered) == n0 && NewCover(groups[1], covered) == n1
    requires NewCover(groups[2], covered) == n2 && NewCover(groups[3], covered) == n3
    requires NewCover(groups[4], covered) == n4
    ensures var b1 := if n1 > n0 then 1 else 0;
      var v1 := if n1 > n0 then n1 else n0;
      var b2 := if n2 > v1 then 2 else b1;
      var v2 := if n2 > v1 then n2 else v1;
      var b3 := if n3 > v2 then 3 else b2;
      var v3 := if n3 > v2 then n3 else v2;
      BestIn(groups, covered, 5) == if n4 > v3 then 4 else b3
  {
    assert BestIn(groups, covered, 1) == 0;
  }

  /** The cells of the five candidates for target 0. */
  function ZeroGroups(): seq<Group>
  {
    [Group([None, Some(0)], [(0, 0), (1, 0)]), Group([Some(0), None], [(0, 0), (0, 1)]),
     Group([Some(0), Some(0)], [(0, 0)]), Group([Some(0), Some(1)], [(0, 1)]), Group([Some(1), Some(0)], [(1, 0)])]
  }

  /** The new coverage of a group of one cell. */
  lemma NewCoverOfOne(g: Group, covered: set<Cell>)
    requires |g.cells| == 1
    ensures NewCover(g, covered) == if g.cells[0] in covered then 0 else 1
  {
    var x := g.cells[0];
    assert CellSet(g.cells) == {x};
    if x in covered {
      assert CellSet(g.cells) - covered == {};
    } else {
      assert CellSet(g.cells) - covered == {x};
    }
  }

  /** The new coverage of a group of two distinct cells, cell by cell. */
  lemma NewCoverOfTwo(g: Group, covered: set<Cell>)
    requires |g.cells| == 2 && g.cells[0] != g.cells[1]
    ensures NewCover(g, covered) == (if g.cells[0] in covered then 0 else 1) + (if g.cells[1] in covered then 0 else 1)
  {
    var x, y := g.cells[0], g.cells[1];
    assert CellSet(g.cells) == {x, y};
    if x in covered && y in covered {
      assert CellSet(g.cells) - covered == {};
    } else if x in covered {
      assert CellSet(g.cells) - covered == {y};
    } else if y in covered {
      assert CellSet(g.cells) - covered == {x};
    } else {
      assert CellSet(g.cells) - covered == {x, y};
    }
  }

  /** Before any choice every candidate for target 0 adds all its cells. */
  lemma ZeroFirstRound(groups: seq<Group>)
    requires groups == ZeroGroups()
    ensures NewCover(groups[0], {}) == 2 && NewCover(groups[1], {}) == 2
    ensures NewCover(groups[2], {}) == 1 && NewCover(groups[3], {}) == 1 && NewCover(groups[4], {}) == 1
  {
    NewCoverOfTwo(groups[0], {});
    NewCoverOfTwo(groups[1], {});
    NewCoverOfOne(groups[2], {});
    NewCoverOfOne(groups[3], {});
    NewCoverOfOne(groups[4], {});
  }

  /** Once the column b = 0 is taken, only the groups holding cell (0, 1) add anything. */
  lemma ZeroSecondRound(groups: seq<Group>, covered: set<Cell>)
    requires groups == ZeroGroups() && covered == {(0, 0), (1, 0)}
    ensures NewCover(groups[0], covered) == 0 && NewCover(groups[1], covered) == 1
    ensures NewCover(groups[2], covered) == 0 && NewCover(groups[3], covered) == 1 && NewCover(groups[4], covered) == 0
  {
    NewCoverOfTwo(groups[0], covered);
    NewCoverOfTwo(groups[1], covered);
    NewCoverOfOne(groups[2], covered);
    NewCoverOfOne(groups[3], covered);
    NewCoverOfOne(groups[4], covered);
  }

  /** One round of the greedy loop that takes group `b`. */
  lemma GreedyTakes(groups: seq<Group>, targets: set<Cell>, covered: set<Cell>, selected: seq<Group>, b: nat)
    requires covered != targets && 0 < |groups|
    requires BestIn(groups, covered, |groups|) == b && NewCover(groups[b], covered) > 0
    ensures Greedy(groups, targets, covered, selected)
      == Greedy(groups, targets, covered + CellSet(groups[b].cells), selected + [groups[b]])
  {
  }

  /** The cells of a two-cell list. */
  lemma CellSetOfTwo(x: Cell, y: Cell)
    ensures CellSet([x, y]) == {x, y}
  {
    assert [x, y][0] == x && [x, y][1] == y;
  }

  /** The first round of the greedy loop takes group `i`. */
  lemma GreedyFirstRound(groups: seq<Group>, targets: set<Cell>, i: nat)
    requires i < |groups| && targets != {}
    requires BestIn(groups, {}, |groups|) == i && NewCover(groups[i], {}) > 0
    ensures Greedy(groups, targets, {}, []) == Greedy(groups, targets, CellSet(groups[i].cells), [groups[i]])
  {
    GreedyTakes(groups, targets, {}, [], i);
    assert {} + CellSet(groups[i].cells) == CellSet(groups[i].cells);
    assert [] + [groups[i]] == [groups[i]];
  }

  /** A round of the greedy loop that takes group `j` and covers the last targets. */
  lemma GreedyLastRound(groups: seq<Group>, targets: set<Cell>, covered: set<Cell>, prev: Group, j: nat)
    requires j < |groups| && covered != targets
    requires BestIn(groups, covered, |groups|) == j && NewCover(groups[j], covered) > 0
    requires covered + CellSet(groups[j].cells) == targets
    ensures Greedy(groups, targets, covered, [prev]) == Some([prev, groups[j]])
  {
    GreedyTakes(groups, targets, covered, [prev], j);
    assert [prev] + [groups[j]] == [prev, groups[j]];
  }

  /** The first pick for target 0 is the column b = 0, the first of the two pairs. */
  lemma ZeroFirstPick(groups: seq<Group>)
    requires groups == ZeroGroups()
    ensures BestIn(groups, {}, |groups|) == 0 && NewCover(groups[0], {}) > 0
  {
    ZeroFirstRound(groups);
    PickOfFive(groups, {}, 2, 2, 1, 1, 1);
  }

  /** The second pick for target 0 is the row a = 0, the first group holding cell (0, 1). */
  lemma ZeroSecondPick(groups: seq<Group>, covered: set<Cell>)
    requires groups == ZeroGroups() && covered == {(0, 0), (1, 0)}
    ensures BestIn(groups, covered, |groups|) == 1 && NewCover(groups[1], covered) > 0
  {
    ZeroSecondRound(groups, covered);
    PickOfFive(groups, covered, 0, 1, 0, 1, 0);
  }

  /** The two picks cover the target cells, the first alone does not. */
  lemma ZeroCoverage(groups: seq<Group>, targets: set<Cell>, covered: set<Cell>)
    requires groups == ZeroGroups() && targets == {(0, 0), (0, 1), (1, 0)} && covered == {(0, 0), (1, 0)}
    ensures covered == CellSet(groups[0].cells) && covered != targets && targets != {}
    ensures covered + CellSet(groups[1].cells) == targets
  {
    CellSetOfTwo((0, 0), (1, 0));
    CellSetOfTwo((0, 0), (0, 1));
    assert (0, 1) in targets && (0, 1) !in covered;
  }

  /** The greedy loop for target 0 takes b = 0, then a = 0, and then every 0 is covered. */
  lemma ZeroGreedySteps(groups: seq<Group>, targets: set<Cell>)
    requires groups == ZeroGroups() && targets == {(0, 0), (0, 1), (1, 0)}
    ensures Greedy(groups, targets, {}, []) == Some([groups[0], groups[1]])
  {
    var c1 := {(0, 0), (1, 0)};
    ZeroFirstPick(groups);
    ZeroSecondPick(groups, c1);
    ZeroCoverage(groups, targets, c1);
    GreedyFirstRound(groups, targets, 0);
    GreedyLastRound(groups, targets, c1, groups[0], 1);
  }

  lemma ZeroPair()
    ensures [ZeroGroups()[0], ZeroGroups()[1]]
      == [Group([None, Some(0)], [(0, 0), (1, 0)]), Group([Some(0), None], [(0, 0), (0, 1)])]
  {
  }

  lemma ZeroGreedy(m: KarnaughMap, n: nat)
    requires m == AndMap() && n == 2
    ensures GreedyChoice(m, n, 0)
      == Some([Group([None, Some(0)], [(0, 0), (1, 0)]), Group([Some(0), None], [(0, 0), (0, 1)])])
  {
    AndZeroCandidates(m, n);
    ZeroTargets(m);
    ZeroGreedySteps(ZeroGroups(), {(0, 0), (0, 1), (1, 0)});
    ZeroPair();
  }

  /** For target 1 the assignments a = * and a = 0 give nothing: each group holds a 0. */
  lemma OneRowsFreeZero()
    ensures Kept([None, None], 1) + Kept([None, Some(0)], 1) + Kept([None, Some(1)], 1) == []
    ensures Kept([Some(0), None], 1) + Kept([Some(0), Some(0)], 1) + Kept([Some(0), Some(1)], 1) == []
  {
    assert AndGroup([None, None]) == [(0, 0), (0, 1), (1, 0), (1, 1)];
    assert AndGroup([None, Some(0)]) == [(0, 0), (1, 0)];
    assert AndGroup([None, Some(1)]) == [(0, 1), (1, 1)];
    assert AndGroup([Some(0), None]) == [(0, 0), (0, 1)];
    assert AndGroup([Some(0), Some(0)]) == [(0, 0)];
    assert AndGroup([Some(0), Some(1)]) == [(0, 1)];
  }

  /** For target 1 the assignments a = 1: only the cell (1, 1). */
  lemma OneRowOne()
    ensures Kept([Some(1), None], 1) + Kept([Some(1), Some(0)], 1) + Kept([Some(1), Some(1)], 1)
      == [Group([Some(1), Some(1)], [(1, 1)])]
  {
    assert AndGroup([Some(1), None]) == [(1, 0), (1, 1)];
    assert AndGroup([Some(1), Some(0)]) == [(1, 0)];
    assert AndGroup([Some(1), Some(1)]) == [(1, 1)];
    assert !AllOn([(1, 0), (1, 1)], 1);
    assert !AllOn([(1, 0)], 1);
    assert AllOn([(1, 1)], 1);
  }

  /** The only group of value 1 (PDNF) is the single cell a = 1, b = 1. */
  lemma AndOneCandidates(m: KarnaughMap, n: nat)
    requires m == AndMap() && n == 2
    ensures Candidates(m, Assignments(n), 1) == [Group([Some(1), Some(1)], [(1, 1)])]
  {
    OneRowsFreeZero();
    OneRowOne();
    AndCandidates(m, n, 1);
  }

  /** The cells holding 1 on `AndMap`: only (1, 1). */
  lemma OneTargets(m: KarnaughMap)
    requires m == AndMap()
    ensures CellSet(TargetCells(m, 1)) == {(1, 1)}
  {
    var p := OnTarget(m, 1);
    var tc := TargetCells(m, 1);
    assert tc == RowMajorWhere(2, 2, p) by {
      assert Pow2(1) == 2;
    }
    RowMajorWhereMembers(2, 2, p);
    assert m.cells == [[0, 0], [0, 1]];
    forall x | x in CellSet(tc) ensures x == (1, 1) {
      assert x in tc && x.0 < 2 && x.1 < 2 && p(x);
    }
    assert p((1, 1));
    assert (1, 1) in tc;
    assert (1, 1) in CellSet(tc);
  }

  /** The greedy loop for target 1 takes the one candidate and is done. */
  lemma OneGreedySteps(g: Group, targets: set<Cell>)
    requires g == Group([Some(1), Some(1)], [(1, 1)]) && targets == {(1, 1)}
    ensures Greedy([g], targets, {}, []) == Some([g])
  {
    NewCoverOfOne(g, {});
    assert CellSet(g.cells) == targets by {
      assert g.cells[0] == (1, 1);
    }
    GreedyFirstRound([g], targets, 0);
  }

  lemma OneGreedy(m: KarnaughMap, n: nat)
    requires m == AndMap() && n == 2
    ensures GreedyChoice(m, n, 1) == Some([Group([Some(1), Some(1)], [(1, 1)])])
  {
    AndOneCandidates(m, n);
    OneTargets(m);
    OneGreedySteps(Group([Some(1), Some(1)], [(1, 1)]), {(1, 1)});
  }

  /** Pruning keeps both of two distinct groups when neither covers the targets alone. */
  lemma PruneKeepsTwo(x: Group, y: Group, targets: set<Cell>, cx: Cell, cy: Cell)
    requires x != y
    requires cx in targets && cx !in y.cells && cy in targets && cy !in x.cells
    ensures PruneSteps([x, y], [x, y], targets) == [x, y]
  {
    assert Without([x, y], x) == [y] by {
      assert [x, y][..1] == [x];
      assert Without([x], x) == [] by {
        assert [x][..0] == [];
      }
    }
    assert cx !in Union([y]);
    assert PruneStep([x, y], x, targets) == [x, y];
    assert Without([x, y], y) == [x] by {
      assert [x, y][..1] == [x];
      assert Without([x], y) == [x] by {
        assert [x][..0] == [];
      }
    }
    assert cy !in Union([x]);
    assert PruneStep([x, y], y, targets) == [x, y];
    assert [x, y][1..] == [y];
    assert [y][1..] == [];
    assert PruneSteps([y], [x, y], targets) == PruneSteps([], [x, y], targets);
  }

  /** Pruning keeps a lone group that some target needs. */
  lemma PruneKeepsOne(x: Group, targets: set<Cell>)
    requires targets != {}
    ensures PruneSteps([x], [x], targets) == [x]
  {
    assert Without([x], x) == [] by {
      assert [x][..0] == [];
    }
    assert Union([]) == {};
    assert PruneStep([x], x, targets) == [x];
    assert [x][1..] == [];
  }

  /** The PCNF terms: b = 0 gives "b", a = 0 gives "a". */
  lemma ZeroTerms(vars: seq<string>)
    requires vars == ["a", "b"]
    ensures GroupToTerm(vars, [None, Some(0)], false) == "b"
    ensures GroupToTerm(vars, [Some(0), None], false) == "a"
  {
    assert [None, Some(0)][..1] == [None] && [Some(0), None][..1] == [Some(0)];
    var free: Assignment := [None];
    assert TermLiterals(vars, free, false) == [] by {
      assert free[..0] == [];
    }
    assert TermLiterals(vars, [Some(0)], false) == ["a"] by {
      assert [Some(0)][..0] == [];
    }
  }

  /** The PCNF of `a & b`: the column b = 0 and the row a = 0, in the order the greedy loop took them. */
  lemma ZeroForm(vars: seq<string>, g0: Group, g1: Group)
    requires vars == ["a", "b"]
    requires g0 == Group([None, Some(0)], [(0, 0), (1, 0)]) && g1 == Group([Some(0), None], [(0, 0), (0, 1)])
    ensures KarnaughForm(vars, [g0, g1], false) == "(b)&(a)"
  {
    ZeroTerms(vars);
    var terms := seq(2, k requires 0 <= k < 2 => GroupToTerm(vars, [g0, g1][k].assignment, false));
    assert terms == ["b", "a"];
    assert Join(terms, ")&(") == "b" + ")&(" + "a" by {
      assert terms[1..] == ["a"];
    }
  }

  /** The PDNF term of the cell a = 1, b = 1 is "a&b". */
  lemma OneTerm(vars: seq<string>)
    requires vars == ["a", "b"]
    ensures GroupToTerm(vars, [Some(1), Some(1)], true) == "a&b"
  {
    assert [Some(1), Some(1)][..1] == [Some(1)];
    assert TermLiterals(vars, [Some(1)], true) == ["a"] by {
      assert [Some(1)][..0] == [];
    }
    assert TermLiterals(vars, [Some(1), Some(1)], true) == ["a", "b"];
    assert ["a", "b"][1..] == ["b"];
  }

  /** The PDNF of `a & b`: the one term "a&b". */
  lemma OneForm(vars: seq<string>, g: Group)
    requires vars == ["a", "b"] && g == Group([Some(1), Some(1)], [(1, 1)])
    ensures KarnaughForm(vars, [g], true) == "(a&b)"
  {
    OneTerm(vars);
    var terms := seq(1, k requires 0 <= k < 1 => GroupToTerm(vars, [g][k].assignment, true));
    assert terms == ["a&b"];
  }

  /** A PCNF choice of the two groups b = 0 and a = 0 over the zeros of `a & b` renders as "(b)&(a)". */
  lemma ZeroChoice(m: KarnaughMap, n: nat, vars: seq<string>, g0: Group, g1: Group)
    requires vars == ["a", "b"]
    requires g0 == Group([None, Some(0)], [(0, 0), (1, 0)]) && g1 == Group([Some(0), None], [(0, 0), (0, 1)])
    requires GreedyChoice(m, n, 0) == Some([g0, g1]) && CellSet(TargetCells(m, 0)) == {(0, 0), (0, 1), (1, 0)}
    ensures (forall g | g in PrunedChoice(m, n, 0) :: |g.assignment| <= |vars|)
      && KarnaughForm(vars, PrunedChoice(m, n, 0), false) == "(b)&(a)"
  {
    PruneKeepsTwo(g0, g1, {(0, 0), (0, 1), (1, 0)}, (1, 0), (0, 1));
    assert PrunedChoice(m, n, 0) == [g0, g1];
    ZeroForm(vars, g0, g1);
  }

  /** A PDNF choice of the single cell a = 1, b = 1 over the ones of `a & b` renders as "(a&b)". */
  lemma OneChoice(m: KarnaughMap, n: nat, vars: seq<string>, g: Group)
    requires vars == ["a", "b"] && g == Group([Some(1), Some(1)], [(1, 1)])
    requires GreedyChoice(m, n, 1) == Some([g]) && CellSet(TargetCells(m, 1)) == {(1, 1)}
    ensures (forall g | g in PrunedChoice(m, n, 1) :: |g.assignment| <= |vars|)
      && KarnaughForm(vars, PrunedChoice(m, n, 1), true) == "(a&b)"
  {
    PruneKeepsOne(g, {(1, 1)});
    assert PrunedChoice(m, n, 1) == [g];
    OneForm(vars, g);
  }

  /** On the map of `a & b` the pruned PCNF choice renders as "(b)&(a)". */
  lemma ZeroOutcome(m: KarnaughMap, n: nat, vars: seq<string>)
    requires m == AndMap() && n == 2 && vars == ["a", "b"]
    ensures GreedyChoice(m, n, 0).Some?
    ensures (forall g | g in PrunedChoice(m, n, 0) :: |g.assignment| <= |vars|)
      && KarnaughForm(vars, PrunedChoice(m, n, 0), false) == "(b)&(a)"
  {
    ZeroGreedy(m, n);
    ZeroTargets(m);
    ZeroChoice(m, n, vars, Group([None, Some(0)], [(0, 0), (1, 0)]), Group([Some(0), None], [(0, 0), (0, 1)]));
  }

  /** On the map of `a & b` the pruned PDNF choice renders as "(a&b)". */
  lemma OneOutcome(m: KarnaughMap, n: nat, vars: seq<string>)
    requires m == AndMap() && n == 2 && vars == ["a", "b"]
    ensures GreedyChoice(m, n, 1).Some?
    ensures (forall g | g in PrunedChoice(m, n, 1) :: |g.assignment| <= |vars|)
      && KarnaughForm(vars, PrunedChoice(m, n, 1), true) == "(a&b)"
  {
    OneGreedy(m, n);
    OneTargets(m);
    OneChoice(m, n, vars, Group([Some(1), Some(1)], [(1, 1)]));
  }

  /** `karnaugh_map_minimization(["a", "b"], table, False)` on the table of `a & b` is "(b)&(a)". */
  method AndPcnf() returns (r: Result<string, string>)
    ensures r == Ok("(b)&(a)")
  {
    var table := AndTable();
    var vars := ["a", "b"];
    AndMapOfTable(table);
    ghost var chosen: seq<Group>;
    r, chosen := KarnaughMinimization(vars, table, false);
    assert r.Ok? && r.value != "Doesn't exist" by {
      assert |vars| == 2 && Last(table[0]) == Target(false);
    }
    assert chosen == PrunedChoice(AndMap(), 2, 0);
    ZeroOutcome(AndMap(), 2, vars);
  }

  /** `karnaugh_map_minimization(["a", "b"], table, True)` on the table of `a & b` is "(a&b)". */
  method AndPdnf() returns (r: Result<string, string>)
    ensures r == Ok("(a&b)")
  {
    var table := AndTable();
    var vars := ["a", "b"];
    AndMapOfTable(table);
    ghost var chosen: seq<Group>;
    r, chosen := KarnaughMinimization(vars, table, true);
    assert r.Ok? && r.value != "Doesn't exist" by {
      assert |vars| == 2 && Last(table[3]) == Target(true);
    }
    assert chosen == PrunedChoice(AndMap(), 2, 1);
    OneOutcome(AndMap(), 2, vars);
  }
}
