/**
 * The implicant chart of the Quine–McCluskey minimiser (lab_3/src/corno/minimizer.py:122-164)
 * and the rendering of implicants as terms (lines 166-180).  A chart row is the implicant's
 * label followed by one cell per constituent, "X" where the implicant covers it.
 */
module Chart {
  import opened Wrappers
  import opened Text
  import opened Implicants
  import opened TruthTables

  // ---------------------------------------------------------------------------------------
  // create_implicant_matrix

  function TritChar(t: Trit): char
  {
    match t
    case Zero => '0'
    case One => '1'
    case Star => '*'
  }

  /** The row label `"".join(str(el) ...)`: the implicant's positions as '0', '1' and '*'. */
  function RowName(imp: Implicant): (r: string)
    ensures |r| == |imp|
    ensures forall i | 0 <= i < |imp| :: r[i] == TritChar(imp[i])
  {
    seq(|imp|, i requires 0 <= i < |imp| => TritChar(imp[i]))
  }

  /** Different implicants get different labels. */
  lemma RowNameInjective(a: Implicant, b: Implicant)
    ensures RowName(a) == RowName(b) ==> a == b
  {
    if RowName(a) == RowName(b) {
      forall i | 0 <= i < |a| ensures a[i] == b[i] {
        assert TritChar(a[i]) == RowName(a)[i] == RowName(b)[i] == TritChar(b[i]);
      }
    }
  }

  /** The cell of constituent c in the row of imp. */
  function Cell(c: Implicant, imp: Implicant): string
  {
    if Matches(c, imp) then "X" else " "
  }

  /** The chart row of imp: its label, then "X" under every constituent it covers and " " elsewhere. */
  function ChartRow(imp: Implicant, cs: seq<Implicant>): (row: seq<string>)
    ensures |row| == |cs| + 1 && row[0] == RowName(imp)
    ensures forall j | 0 <= j < |cs| :: row[j + 1] == Cell(cs[j], imp)
  {
    [RowName(imp)] + seq(|cs|, j requires 0 <= j < |cs| => Cell(cs[j], imp))
  }

  /** matrix is the chart of the implicants imps against the constituents cs. */
  ghost predicate IsChart(matrix: seq<seq<string>>, imps: seq<Implicant>, cs: seq<Implicant>)
  {
    |matrix| == |imps| && forall i | 0 <= i < |imps| :: matrix[i] == ChartRow(imps[i], cs)
  }

  /** `create_implicant_matrix`: one row per implicant, one cell per constituent. */
  method CreateImplicantMatrix(imps: seq<Implicant>, cs: seq<Implicant>) returns (matrix: seq<seq<string>>)
    ensures IsChart(matrix, imps, cs)
  {
    matrix := [];
    var i := 0;
    while i < |imps|
      invariant 0 <= i <= |imps|
      invariant |matrix| == i
      invariant forall k | 0 <= k < i :: matrix[k] == ChartRow(imps[k], cs)
    {
      var imp := imps[i];
      var row := [RowName(imp)];
      var j := 0;
      while j < |cs|
        invariant 0 <= j <= |cs|
        invariant |row| == j + 1 && row[0] == RowName(imp)
        invariant forall jj | 0 <= jj < j :: row[jj + 1] == Cell(cs[jj], imp)
      {
        if Matches(cs[j], imp) {
          row := row + ["X"];
        } else {
          row := row + [" "];
        }
        j := j + 1;
      }
      assert row == ChartRow(imp, cs);
      matrix := matrix + [row];
      i := i + 1;
    }
  }

  // ---------------------------------------------------------------------------------------
  // found_unique_implicant

  /** Every row is as long as the first. */
  predicate Rectangular(matrix: seq<seq<string>>)
  {
    forall i | 0 <= i < |matrix| :: |matrix[i]| == |matrix[0]|
  }

  /** The rows among the first `below` that hold "X" in column j. */
  ghost function MarkedIn(matrix: seq<seq<string>>, j: nat, below: nat): set<int>
  {
    set i | 0 <= i < below && i < |matrix| && j < |matrix[i]| && matrix[i][j] == "X"
  }

  /** The rows that hold "X" in column j. */
  ghost function Marked(matrix: seq<seq<string>>, j: nat): set<int>
  {
    MarkedIn(matrix, j, |matrix|)
  }

  /**
   * What column j adds to the result: its only marked row, or -1 when no row is marked;
   * a column with two or more marks adds nothing.
   */
  ghost predicate Contributes(matrix: seq<seq<string>>, j: nat, i: int)
  {
    Marked(matrix, j) == {i} || (Marked(matrix, j) == {} && i == -1)
  }

  /**
   * `found_unique_implicant`: for every column after the label, the index of its only "X",
   * or -1 when it has none.  An empty matrix has no first row: the source raises IndexError.
   */
  method FoundUniqueImplicant(matrix: seq<seq<string>>) returns (r: Result<set<int>, string>)
    requires Rectangular(matrix)
    ensures r.Err? <==> |matrix| == 0
    ensures r.Ok? ==> forall i :: i in r.value <==> exists j | 1 <= j < |matrix[0]| :: Contributes(matrix, j, i)
  {
    if |matrix| == 0 {
      return Err("IndexError");
    }
    var unique: set<int> := {};
    var j := 1;
    while j < |matrix[0]|
      invariant 1 <= j
      invariant forall i :: i in unique <==> exists jj | 1 <= jj < j && jj < |matrix[0]| :: Contributes(matrix, jj, i)
    {
      var index := -1;
      var multiple := false;
      ghost var first, second := -1, -1;
      var i := 0;
      while i < |matrix|
        invariant 0 <= i <= |matrix|
        invariant !multiple ==> (index == -1 <==> MarkedIn(matrix, j, i) == {})
        invariant !multiple && index != -1 ==> MarkedIn(matrix, j, i) == {index}
        invariant !multiple
      {
        if matrix[i][j] == "X" {
          if index != -1 {
            assert index in MarkedIn(matrix, j, i);
            first, second := index, i;
            multiple := true;
            break;
          }
          index := i;
        }
        assert MarkedIn(matrix, j, i + 1) == MarkedIn(matrix, j, i) + (if matrix[i][j] == "X" then {i} else {});
        i := i + 1;
      }
      if !multiple {
        unique := unique + {index};
        assert Contributes(matrix, j, index);
        forall x | Contributes(matrix, j, x) ensures x == index {
        }
      } else {
        assert first != second && first in Marked(matrix, j) && second in Marked(matrix, j);
      }
      j := j + 1;
    }
    return Ok(unique);
  }

  // ---------------------------------------------------------------------------------------
  // What the chart says about the implicants

  /** The implicants that cover constituent c. */
  ghost function Covering(imps: seq<Implicant>, c: Implicant): set<int>
  {
    set i | 0 <= i < |imps| && Matches(c, imps[i])
  }

  /** Implicant i is essential: it alone covers some constituent. */
  ghost predicate Essential(imps: seq<Implicant>, cs: seq<Implicant>, i: int)
  {
    exists j | 0 <= j < |cs| :: Covering(imps, cs[j]) == {i}
  }

  /** The marks of column j + 1 of a chart are the implicants covering constituent j. */
  lemma ChartColumn(matrix: seq<seq<string>>, imps: seq<Implicant>, cs: seq<Implicant>, j: nat)
    requires IsChart(matrix, imps, cs) && j < |cs|
    ensures Marked(matrix, j + 1) == Covering(imps, cs[j])
  {
    forall i | 0 <= i < |imps| ensures (matrix[i][j + 1] == "X") == Matches(cs[j], imps[i]) {
      assert matrix[i][j + 1] == Cell(cs[j], imps[i]);
    }
  }

  /**
   * Over the chart of imps against cs, `found_unique_implicant` returns the essential
   * implicants, and -1 exactly when some constituent is covered by no implicant.
   */
  lemma UniqueAreEssential(matrix: seq<seq<string>>, imps: seq<Implicant>, cs: seq<Implicant>, i: int)
    requires IsChart(matrix, imps, cs) && |imps| > 0
    ensures (exists j | 1 <= j < |matrix[0]| :: Contributes(matrix, j, i)) <==>
      Essential(imps, cs, i) || (i == -1 && exists j | 0 <= j < |cs| :: Covering(imps, cs[j]) == {})
  {
    if j :| 1 <= j < |matrix[0]| && Contributes(matrix, j, i) {
      ContributingColumn(matrix, imps, cs, j, i);
    }
    if Essential(imps, cs, i) {
      var j :| 0 <= j < |cs| && Covering(imps, cs[j]) == {i};
      CoveringColumn(matrix, imps, cs, j, i);
    }
    if i == -1 && exists j | 0 <= j < |cs| :: Covering(imps, cs[j]) == {} {
      var j :| 0 <= j < |cs| && Covering(imps, cs[j]) == {};
      CoveringColumn(matrix, imps, cs, j, i);
    }
  }

  /** A column that contributes i: i alone covers its constituent, or nothing does and i is -1. */
  lemma ContributingColumn(matrix: seq<seq<string>>, imps: seq<Implicant>, cs: seq<Implicant>, j: nat, i: int)
    requires IsChart(matrix, imps, cs) && |imps| > 0 && 1 <= j < |matrix[0]| && Contributes(matrix, j, i)
    ensures Essential(imps, cs, i) || (i == -1 && exists j | 0 <= j < |cs| :: Covering(imps, cs[j]) == {})
  {
    ChartRectangular(matrix, imps, cs);
    var c := j - 1;
    ChartColumn(matrix, imps, cs, c);
    if Marked(matrix, j) == {i} {
      assert Covering(imps, cs[c]) == {i};
    } else {
      assert Covering(imps, cs[c]) == {};
    }
  }

  /** The column of a constituent covered by i alone, or by nothing when i is -1, contributes i. */
  lemma CoveringColumn(matrix: seq<seq<string>>, imps: seq<Implicant>, cs: seq<Implicant>, j: nat, i: int)
    requires IsChart(matrix, imps, cs) && |imps| > 0 && j < |cs|
    requires Covering(imps, cs[j]) == {i} || (Covering(imps, cs[j]) == {} && i == -1)
    ensures 1 <= j + 1 < |matrix[0]| && Contributes(matrix, j + 1, i)
  {
    ChartColumn(matrix, imps, cs, j);
  }

  /** A chart is rectangular. */
  lemma ChartRectangular(matrix: seq<seq<string>>, imps: seq<Implicant>, cs: seq<Implicant>)
    requires IsChart(matrix, imps, cs)
    ensures Rectangular(matrix)
    ensures |matrix| > 0 ==> |matrix[0]| == |cs| + 1
  {
  }

  // ---------------------------------------------------------------------------------------
  // convert_bin_to_var_form

  /** Whether the literal of a position is negated: a 0 bit in a PDNF term, a 1 bit in a PCNF term. */
  function Negated(t: Trit, isPdnf: bool): bool
  {
    if isPdnf then t == Zero else t == One
  }

  /** The literals of the positions of imp that are not "*", in position order. */
  function Literals(variables: seq<string>, imp: Implicant, isPdnf: bool): (r: seq<string>)
    requires |imp| <= |variables|
  {
    if |imp| == 0 then []
    else
      var k := |imp| - 1;
      Literals(variables, imp[..k], isPdnf)
        + (if imp[k] == Star then [] else [Literal(variables[k], Negated(imp[k], isPdnf))])
  }

  /** `convert_bin_to_var_form`: the literals joined by "&" (PDNF) or "|" (PCNF). */
  function VarForm(variables: seq<string>, imp: Implicant, isPdnf: bool): string
    requires |imp| <= |variables|
  {
    Join(Literals(variables, imp, isPdnf), if isPdnf then "&" else "|")
  }

  /** There is one literal per position that is not "*". */
  lemma {:induction false} LiteralsCount(variables: seq<string>, imp: Implicant, isPdnf: bool)
    requires |imp| <= |variables|
    ensures |Literals(variables, imp, isPdnf)| == |imp| - StarCount(imp)
  {
    if |imp| > 0 {
      LiteralsCount(variables, imp[..|imp| - 1], isPdnf);
    }
  }

  /** An implicant of stars only renders as the empty string, so its term is "()". */
  lemma AllStarsVarForm(variables: seq<string>, imp: Implicant, isPdnf: bool)
    requires |imp| <= |variables| && StarCount(imp) == |imp|
    ensures VarForm(variables, imp, isPdnf) == ""
  {
    LiteralsCount(variables, imp, isPdnf);
  }

  /** The polarity of each position of a star-free implicant: true for a 1 bit. */
  function Polarity(imp: Implicant): (p: seq<bool>)
    ensures |p| == |imp|
  {
    seq(|imp|, i requires 0 <= i < |imp| => imp[i] == One)
  }

  /** On a star-free prefix, the literals are those of the canonical-form term of the same row. */
  lemma {:induction false} StarFreeLiterals(variables: seq<string>, imp: Implicant, isPdnf: bool, k: nat)
    requires |imp| == |variables| && StarFree(imp) && k <= |imp|
    ensures Literals(variables, imp[..k], isPdnf)
      == seq(k, i requires 0 <= i < k => Literal(variables[i], Polarity(imp)[i] == !isPdnf))
  {
    if k > 0 {
      StarFreeLiterals(variables, imp, isPdnf, k - 1);
      assert imp[..k][..k - 1] == imp[..k - 1];
    }
  }

  /**
   * A constituent (no "*") renders exactly as its term in the canonical form:
   * `(x&!y)` in a PDNF, `(!x|y)` in a PCNF.
   */
  lemma StarFreeVarForm(variables: seq<string>, imp: Implicant, isPdnf: bool)
    requires |imp| == |variables| && StarFree(imp)
    ensures "(" + VarForm(variables, imp, isPdnf) + ")"
      == Term(variables, Polarity(imp), !isPdnf, if isPdnf then "&" else "|")
  {
    StarFreeLiterals(variables, imp, isPdnf, |imp|);
    assert imp[..|imp|] == imp;
  }

  /** One implicant as a parenthesised term of the result. */
  function Parenthesized(variables: seq<string>, imp: Implicant, isPdnf: bool): string
    requires |imp| <= |variables|
  {
    "(" + VarForm(variables, imp, isPdnf) + ")"
  }

  /** A parenthesised term per implicant, joined by "|" (PDNF) or "&" (PCNF). */
  function Render(variables: seq<string>, imps: seq<Implicant>, isPdnf: bool): string
    requires forall k | 0 <= k < |imps| :: |imps[k]| <= |variables|
  {
    Join(seq(|imps|, k requires 0 <= k < |imps| => Parenthesized(variables, imps[k], isPdnf)),
      if isPdnf then "|" else "&")
  }
}
