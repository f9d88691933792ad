/**
 * The Karnaugh-map path of `Minimizer` (lab_3/src/corno/minimizer.py:284-478): the map of a
 * truth table of at most five variables, the candidate groups given by all {None, 0, 1}
 * assignments, a greedy cover of the target cells, the pruning of redundant groups and the
 * rendering of the chosen assignments as terms.
 */
module Karnaugh {
  import opened Wrappers
  import opened Lists
  import opened Text
  import opened TruthTables

  // ---------------------------------------------------------------------------------------
  // to_binary

  function BitChar(b: int): char
  {
    if b == 1 then '1' else '0'
  }

  /** `format(number, "b")`: the binary digits without leading zeros, "0" for zero. */
  function BinaryDigits(number: nat): (r: string)
    ensures |r| >= 1
  {
    if number < 2 then [BitChar(number)] else BinaryDigits(number / 2) + [BitChar(number % 2)]
  }

  /** `to_binary`: the binary digits left-padded with '0' to at least `width` characters. */
  function ToBinary(number: nat, width: nat): (r: string)
    ensures |r| >= width && |r| >= 1
  {
    var digits := BinaryDigits(number);
    if |digits| < width then seq(width - |digits|, _ => '0') + digits else digits
  }

  /** The characters of a bit vector. */
  function BitString(bits: seq<int>): (r: string)
    ensures |r| == |bits|
  {
    seq(|bits|, k requires 0 <= k < |bits| => BitChar(bits[k]))
  }

  lemma {:induction false} BitsOfZero(n: nat)
    ensures BitString(Bits(0, n)) == seq(n, _ => '0')
  {
    if n > 0 {
      BitsOfZero(n - 1);
      assert Bits(0, n) == Bits(0, n - 1) + [0];
      assert BitString(Bits(0, n)) == BitString(Bits(0, n - 1)) + ['0'];
      assert seq(n, _ => '0') == seq(n - 1, _ => '0') + ['0'];
    }
  }

  /**
   * Below 2^width, `to_binary` is the width-bit binary, most significant bit first; a zero
   * width still gives the single digit "0".
   */
  lemma {:induction false} ToBinaryBits(number: nat, width: nat)
    requires number < Pow2(width)
    ensures ToBinary(number, width) == if width == 0 then "0" else BitString(Bits(number, width))
  {
    if width > 0 {
      var w1 := width - 1;
      var bits := Bits(number, width);
      assert bits == Bits(number / 2, w1) + [number % 2];
      if number < 2 {
        BitsOfZero(w1);
        assert number / 2 == 0;
        assert BitString(bits) == seq(w1, _ => '0') + [BitChar(number)];
      } else {
        ToBinaryBits(number / 2, w1);
        var digits := BinaryDigits(number / 2);
        assert |digits| <= w1;
        assert BitString(bits) == BitString(Bits(number / 2, w1)) + [BitChar(number % 2)];
      }
    }
  }

  /** The examples of `test_to_binary`. */
  lemma ToBinaryExamples()
    ensures ToBinary(5, 3) == "101" && ToBinary(0, 2) == "00" && ToBinary(7, 3) == "111"
  {
    assert BinaryDigits(5) == BinaryDigits(2) + ['1'];
    assert BinaryDigits(7) == BinaryDigits(3) + ['1'];
  }

  // ---------------------------------------------------------------------------------------
  // The row and column sequences and labels of generate_karnaugh_map

  /** Bitwise exclusive or of two naturals. */
  function Xor(a: nat, b: nat): nat
    decreases a + b
  {
    if a == 0 && b == 0 then 0 else 2 * Xor(a / 2, b / 2) + (if a % 2 == b % 2 then 0 else 1)
  }

  /** The sort key `x ^ (x >> 1)`, the reflected Gray code of x. */
  function Gray(x: nat): nat
  {
    Xor(x, x / 2)
  }

  function Range(size: nat): (r: seq<nat>)
    ensures |r| == size && forall i | 0 <= i < size :: r[i] == i
  {
    seq(size, i => i)
  }

  predicate GrayAscending(s: seq<nat>)
  {
    forall i, j | 0 <= i < j < |s| :: Gray(s[i]) <= Gray(s[j])
  }

  /** Insert x before the first element whose key is not below that of x. */
  function InsertByGray(x: nat, s: seq<nat>): (r: seq<nat>)
    requires GrayAscending(s)
    ensures multiset(r) == multiset(s) + multiset{x}
    ensures forall k | 0 <= k < |r| :: r[k] == x || r[k] in s
    ensures GrayAscending(r)
  {
    if |s| == 0 then [x]
    else if Gray(x) <= Gray(s[0]) then [x] + s
    else
      var head, tail := s[0], s[1..];
      var rest := InsertByGray(x, tail);
      assert s == [head] + tail;
      AscendingCons(head, rest);
      [head] + rest
  }

  lemma AscendingCons(head: nat, rest: seq<nat>)
    requires GrayAscending(rest) && forall k | 0 <= k < |rest| :: Gray(head) <= Gray(rest[k])
    ensures GrayAscending([head] + rest)
  {
  }

  /** The keys below 8. */
  lemma GrayBelowEight()
    ensures Gray(0) == 0 && Gray(1) == 1 && Gray(2) == 3 && Gray(3) == 2
    ensures Gray(4) == 6 && Gray(5) == 7 && Gray(6) == 5 && Gray(7) == 4
  {
  }

  /** `sorted(s, key=lambda x: x ^ (x >> 1))`: the same elements in ascending order of the key. */
  function GraySorted(s: seq<nat>): (r: seq<nat>)
    ensures multiset(r) == multiset(s)
    ensures GrayAscending(r)
  {
    if |s| == 0 then []
    else
      assert s == [s[0]] + s[1..];
      InsertByGray(s[0], GraySorted(s[1..]))
  }

  /** `row_seq` / `col_seq`: range(size) sorted by the Gray key. */
  function GraySequence(size: nat): (r: seq<nat>)
    ensures |r| == size
    ensures multiset(r) == multiset(Range(size))
    ensures GrayAscending(r)
  {
    var r := GraySorted(Range(size));
    assert |r| == |multiset(r)| == |multiset(Range(size))| == size;
    r
  }

  /**
   * For eight columns the key order is [0, 1, 3, 2, 7, 6, 4, 5], the inverse of the Gray
   * permutation, while the column labels (`LabelsOf`) are the Gray codes 000, 001, 011, 010,
   * 110, 111, 101, 100: from the fifth column on a label does not name its column.
   */
  lemma EightColumns(size: nat)
    requires size == 8
    ensures GraySequence(size) == [0, 1, 3, 2, 7, 6, 4, 5]
    ensures LabelsOf(size, 3)[4] == "110" && BitString(Bits(GraySequence(size)[4], 3)) == "111"
  {
    var g := GraySequence(size);
    GrayBelowEight();
    PermutationCheck(g);
    FifthColumn();
  }

  lemma FifthColumn()
    ensures LabelsOf(8, 3)[4] == "110" && BitString(Bits(7, 3)) == "111"
  {
    assert Gray(4) == 6;
    assert BinaryDigits(1) == "1";
    assert BinaryDigits(3) == "1" + "1";
    assert BinaryDigits(6) == "11" + "0";
    assert Bits(1, 1) == [] + [1];
    assert Bits(3, 2) == [1] + [1];
    assert Bits(7, 3) == [1, 1] + [1];
    assert BitString([1, 1, 1]) == "111";
  }

  /** The ascending-key permutation of range(8) is unique. */
  lemma PermutationCheck(r: seq<nat>)
    requires |r| == 8 && multiset(r) == multiset(Range(8)) && GrayAscending(r)
    requires Gray(0) == 0 && Gray(1) == 1 && Gray(2) == 3 && Gray(3) == 2
    requires Gray(4) == 6 && Gray(5) == 7 && Gray(6) == 5 && Gray(7) == 4
    ensures r == [0, 1, 3, 2, 7, 6, 4, 5] && r[4] == 7
  {
    PermutationOfRange(r, 8);
    forall i | 0 <= i < 8 ensures Gray(r[i]) == i {
      GrayRank(r, i);
    }
  }

  /** A permutation of range(size) has distinct elements, each below size, and holds each such value. */
  lemma PermutationOfRange(r: seq<nat>, size: nat)
    requires multiset(r) == multiset(Range(size))
    ensures forall i | 0 <= i < |r| :: r[i] < size
    ensures forall x: nat | x < size :: x in r
    ensures Distinct(r)
  {
    PermutationDistinct(r, Range(size));
    forall i | 0 <= i < |r| ensures r[i] < size {
      assert r[i] in multiset(Range(size));
    }
    forall x: nat | x < size ensures x in r {
      assert Range(size)[x] == x;
      assert x in multiset(Range(size));
    }
  }

  /** In the ascending-key permutation of range(8), position i holds the value whose key is i. */
  lemma GrayRank(r: seq<nat>, i: nat)
    requires |r| == 8 && i < 8 && GrayAscending(r) && Distinct(r)
    requires forall k | 0 <= k < 8 :: r[k] < 8
    requires Gray(0) == 0 && Gray(1) == 1 && Gray(2) == 3 && Gray(3) == 2
    requires Gray(4) == 6 && Gray(5) == 7 && Gray(6) == 5 && Gray(7) == 4
    ensures Gray(r[i]) == i
  {
    // The keys of r are eight distinct values in [0, 8) in ascending order.
    var keys := seq(8, k requires 0 <= k < 8 => Gray(r[k]));
    forall a, b | 0 <= a < b < 8 ensures keys[a] < keys[b] {
      assert r[a] != r[b];
    }
    StrictRank(keys, i);
  }

  /** A strictly ascending sequence of eight values in [0, 8) is 0, 1, ..., 7. */
  lemma StrictRank(keys: seq<nat>, i: nat)
    requires |keys| == 8 && i < 8
    requires forall k | 0 <= k < 8 :: keys[k] < 8
    requires forall a, b | 0 <= a < b < 8 :: keys[a] < keys[b]
    ensures keys[i] == i
  {
    assert keys[0] < keys[1] < keys[2] < keys[3] < keys[4] < keys[5] < keys[6] < keys[7];
  }

  /** `row_labels` / `col_labels`: the width-bit binary of the Gray code of each k < size. */
  function LabelsOf(size: nat, width: nat): (r: seq<string>)
    ensures |r| == size
  {
    seq(size, k requires 0 <= k < size => ToBinary(Gray(k), width))
  }

  // ---------------------------------------------------------------------------------------
  // generate_karnaugh_map

  /** Bitwise or of two naturals. */
  function Or(a: nat, b: nat): nat
    decreases a + b
  {
    if a == 0 && b == 0 then 0 else 2 * Or(a / 2, b / 2) + (if a % 2 == 1 || b % 2 == 1 then 1 else 0)
  }

  lemma {:induction false} OrZero(a: nat)
    ensures Or(a, 0) == a
    decreases a
  {
    if a > 0 {
      OrZero(a / 2);
    }
  }

  /** When b < 2^c, `(a << c) | b` is a * 2^c + b. */
  lemma {:induction false} OrShifted(a: nat, c: nat, b: nat)
    requires b < Pow2(c)
    ensures Or(a * Pow2(c), b) == a * Pow2(c) + b
  {
    if c == 0 {
      OrZero(a);
    } else {
      var x := a * Pow2(c - 1);
      assert a * Pow2(c) == 2 * x;
      OrShifted(a, c - 1, b / 2);
      assert (2 * x) / 2 == x && (2 * x) % 2 == 0;
      if 2 * x != 0 || b != 0 {
        assert Or(2 * x, b) == 2 * Or(x, b / 2) + (if b % 2 == 1 then 1 else 0);
      }
    }
  }

  lemma {:induction false} MulMonotone(a: nat, b: nat, d: nat)
    ensures a <= b ==> a * d <= b * d
  {
    if d > 0 {
      MulMonotone(a, b, d - 1);
      assert a * d == a * (d - 1) + a && b * d == b * (d - 1) + b;
    }
  }

  /** An index below 2^r and one below 2^c combine into an index below 2^(r+c). */
  lemma IndexBound(a: nat, b: nat, r: nat, c: nat)
    requires a < Pow2(r) && b < Pow2(c)
    ensures Or(a * Pow2(c), b) < Pow2(r + c)
  {
    var d := Pow2(c);
    OrShifted(a, c, b);
    Pow2Add(r, c);
    MulMonotone(a + 1, Pow2(r), d);
    assert (a + 1) * d == a * d + d;
  }

  /**
   * The tuple `generate_karnaugh_map` returns: the 2^r x 2^c map, the labels, the row and
   * column sequences and the numbers r and c of row and column variables.
   */
  datatype KarnaughMap = KarnaughMap(
    cells: seq<seq<int>>, rowLabels: seq<string>, colLabels: seq<string>,
    rowSeq: seq<nat>, colSeq: seq<nat>, rowVarNum: nat, colVarNum: nat)

  /** `(row_seq[i] << col_var_num) | col_seq[j]` */
  function CellIndex(rowSeq: seq<nat>, colSeq: seq<nat>, colVarNum: nat, i: nat, j: nat): nat
    requires i < |rowSeq| && j < |colSeq|
  {
    Or(rowSeq[i] * Pow2(colVarNum), colSeq[j])
  }

  /** The shape of a map over an n-variable table: n // 2 row variables, the rest column variables. */
  ghost predicate Shaped(m: KarnaughMap, n: nat)
  {
    && m.rowVarNum == n / 2 && m.colVarNum == n - n / 2
    && m.rowSeq == GraySequence(Pow2(m.rowVarNum)) && m.colSeq == GraySequence(Pow2(m.colVarNum))
    && m.rowLabels == LabelsOf(Pow2(m.rowVarNum), m.rowVarNum)
    && m.colLabels == LabelsOf(Pow2(m.colVarNum), m.colVarNum)
    && |m.cells| == Pow2(m.rowVarNum)
    && (forall i | 0 <= i < |m.cells| :: |m.cells[i]| == Pow2(m.colVarNum))
  }

  /** The first `upTo` cells of map row i hold the results of their table rows. */
  ghost predicate RowHolds(row: seq<int>, table: seq<seq<int>>, rowSeq: seq<nat>, colSeq: seq<nat>,
                          colVarNum: nat, i: nat, upTo: nat)
  {
    && i < |rowSeq| && upTo <= |colSeq| && upTo <= |row|
    && forall j | 0 <= j < upTo ::
         var index := CellIndex(rowSeq, colSeq, colVarNum, i, j);
         index < |table| && |table[index]| > 0 && row[j] == Last(table[index])
  }

  /** The map of a table: cell [i][j] holds the result of table row CellIndex(i, j). */
  ghost predicate IsMapOf(m: KarnaughMap, table: seq<seq<int>>, n: nat)
  {
    && Shaped(m, n)
    && forall i | 0 <= i < |m.cells| ::
         RowHolds(m.cells[i], table, m.rowSeq, m.colSeq, m.colVarNum, i, |m.cells[i]|)
  }

  /** A table has one map: the shape fixes the sequences and labels, the rows fix every cell. */
  lemma MapUnique(m1: KarnaughMap, m2: KarnaughMap, table: seq<seq<int>>, n: nat)
    requires IsMapOf(m1, table, n) && IsMapOf(m2, table, n)
    ensures m1 == m2
  {
    forall i | 0 <= i < |m1.cells|
      ensures m1.cells[i] == m2.cells[i]
    {
      assert RowHolds(m1.cells[i], table, m1.rowSeq, m1.colSeq, m1.colVarNum, i, |m1.cells[i]|);
      assert RowHolds(m2.cells[i], table, m2.rowSeq, m2.colSeq, m2.colVarNum, i, |m2.cells[i]|);
    }
  }

  /**
   * `generate_karnaugh_map`: ValueError for more than five variables, before any work;
   * otherwise the map of the table.
   */
  method GenerateKarnaughMap(table: seq<seq<int>>, n: nat) returns (r: Result<KarnaughMap, string>)
    requires |table| == Pow2(n) && RowsNonEmpty(table)
    ensures r.Err? <==> n > 5
    ensures r.Err? ==> r.error == "Karnaugh map for more than 5 variables is not supported."
    ensures r.Ok? ==> IsMapOf(r.value, table, n)
  {
    if n > 5 {
      return Err("Karnaugh map for more than 5 variables is not supported.");
    }
    var rowVarNum := n / 2;
    var colVarNum := n - rowVarNum;
    var rowSize := Pow2(rowVarNum);
    var colSize := Pow2(colVarNum);
    var rowSeq := GraySequence(rowSize);
    var colSeq := GraySequence(colSize);
    PermutationOfRange(rowSeq, rowSize);
    PermutationOfRange(colSeq, colSize);
    var cells := seq(rowSize, _ => seq(colSize, _ => 0));
    for i := 0 to rowSize
      invariant |cells| == rowSize
      invariant forall i' | 0 <= i' < rowSize :: |cells[i']| == colSize
      invariant forall i' | 0 <= i' < i :: RowHolds(cells[i'], table, rowSeq, colSeq, colVarNum, i', colSize)
    {
      var row := FillRow(table, n, rowSeq, colSeq, rowVarNum, colVarNum, i, cells[i]);
      cells := cells[i := row];
    }
    var rowLabels := LabelsOf(rowSize, rowVarNum);
    var colLabels := LabelsOf(colSize, colVarNum);
    r := Ok(KarnaughMap(cells, rowLabels, colLabels, rowSeq, colSeq, rowVarNum, colVarNum));
  }

  /** The inner loop of `generate_karnaugh_map`: `karnaugh_map[i][j] = table[index][-1]` for each j. */
  method FillRow(table: seq<seq<int>>, n: nat, rowSeq: seq<nat>, colSeq: seq<nat>,
                 rowVarNum: nat, colVarNum: nat, i: nat, row0: seq<int>) returns (row: seq<int>)
    requires |table| == Pow2(n) && RowsNonEmpty(table) && n == rowVarNum + colVarNum
    requires i < |rowSeq| && rowSeq[i] < Pow2(rowVarNum)
    requires forall j | 0 <= j < |colSeq| :: colSeq[j] < Pow2(colVarNum)
    requires |row0| == |colSeq|
    ensures |row| == |row0|
    ensures RowHolds(row, table, rowSeq, colSeq, colVarNum, i, |row|)
  {
    row := row0;
    for j := 0 to |colSeq|
      invariant |row| == |row0|
      invariant RowHolds(row, table, rowSeq, colSeq, colVarNum, i, j)
    {
      var index := Or(rowSeq[i] * Pow2(colVarNum), colSeq[j]);
      IndexBound(rowSeq[i], colSeq[j], rowVarNum, colVarNum);
      row := row[j := Last(table[index])];
    }
  }

  /** Every row index of the table belongs to a cell of its map. */
  lemma CellOf(m: KarnaughMap, n: nat, index: nat) returns (i: nat, j: nat)
    requires Shaped(m, n) && index < Pow2(n)
    ensures i < |m.cells| && j < |m.cells[i]| && i < |m.rowSeq| && j < |m.colSeq|
    ensures CellIndex(m.rowSeq, m.colSeq, m.colVarNum, i, j) == index
  {
    var r, c := m.rowVarNum, m.colVarNum;
    var high, low := SplitIndex(index, r, c);
    i := GrayPosition(Pow2(r), high);
    j := GrayPosition(Pow2(c), low);
    OrShifted(high, c, low);
  }

  /** Every entry of the Gray ordering of range(size) is below size. */
  lemma GrayEntry(size: nat, k: nat)
    requires k < size
    ensures GraySequence(size)[k] < size
  {
    var g := GraySequence(size);
    assert g[k] in multiset(Range(size));
    assert g[k] in Range(size);
  }

  /** Every value below size has a position in the Gray ordering of range(size). */
  lemma GrayPosition(size: nat, v: nat) returns (k: nat)
    requires v < size
    ensures k < size && GraySequence(size)[k] == v
  {
    var g := GraySequence(size);
    assert Range(size)[v] == v;
    assert v in multiset(Range(size));
    assert v in g;
    k :| 0 <= k < |g| && g[k] == v;
  }


  /** An index below 2^(r+c) is the combination of one below 2^r and one below 2^c. */
  lemma SplitIndex(index: nat, r: nat, c: nat) returns (high: nat, low: nat)
    requires index < Pow2(r + c)
    ensures high < Pow2(r) && low < Pow2(c) && index == high * Pow2(c) + low
  {
    var d := Pow2(c);
    high, low := DivMod(index, d);
    var p := Pow2(r);
    Pow2Add(r, c);
    MulMonotone(p, high, d);
  }

  lemma DivMod(a: nat, d: nat) returns (q: nat, m: nat)
    requires d > 0
    ensures a == q * d + m && m < d
  {
    q, m := a / d, a % d;
  }

  /** Different cells of a map hold different rows of the table. */
  lemma CellIndexInjective(m: KarnaughMap, n: nat, i: nat, j: nat, i2: nat, j2: nat)
    requires Shaped(m, n)
    requires i < |m.rowSeq| && j < |m.colSeq| && i2 < |m.rowSeq| && j2 < |m.colSeq|
    ensures CellIndex(m.rowSeq, m.colSeq, m.colVarNum, i, j) == CellIndex(m.rowSeq, m.colSeq, m.colVarNum, i2, j2)
      ==> i == i2 && j == j2
  {
    var r, c := m.rowVarNum, m.colVarNum;
    PermutationOfRange(m.rowSeq, Pow2(r));
    PermutationOfRange(m.colSeq, Pow2(c));
    OrShifted(m.rowSeq[i], c, m.colSeq[j]);
    OrShifted(m.rowSeq[i2], c, m.colSeq[j2]);
    DivisionUnique(m.rowSeq[i], m.colSeq[j], m.rowSeq[i2], m.colSeq[j2], Pow2(c));
  }

  lemma DivisionUnique(a: nat, b: nat, a2: nat, b2: nat, d: nat)
    requires b < d && b2 < d
    ensures a * d + b == a2 * d + b2 ==> a == a2 && b == b2
  {
    MulMonotone(a + 1, a2, d);
    MulMonotone(a2 + 1, a, d);
    assert (a + 1) * d == a * d + d && (a2 + 1) * d == a2 * d + d;
  }

  // ---------------------------------------------------------------------------------------
  // The candidate groups: product([None, 0, 1], repeat=n) and get_group

  /** A cell (i, j) of the map: row i, column j. */
  type Cell = (nat, nat)

  /** A tuple of `product([None, 0, 1], repeat=n)`: None leaves a variable free. */
  type Assignment = seq<Option<int>>

  /** The values of one position, in the order `product` takes them. */
  const Choices: seq<Option<int>> := [None, Some(0), Some(1)]

  function Pow3(n: nat): (r: nat)
    ensures r >= 1
  {
    if n == 0 then 1 else 3 * Pow3(n - 1)
  }

  /** Each assignment of `rest` with v put in front. */
  function Prefixed(v: Option<int>, rest: seq<Assignment>): (r: seq<Assignment>)
    ensures |r| == |rest|
  {
    seq(|rest|, k requires 0 <= k < |rest| => [v] + rest[k])
  }

  /** `product([None, 0, 1], repeat=n)`: all 3^n assignments, the first position varying slowest. */
  function Assignments(n: nat): (r: seq<Assignment>)
    ensures |r| == Pow3(n)
  {
    if n == 0 then [[]]
    else
      var rest := Assignments(n - 1);
      Prefixed(None, rest) + Prefixed(Some(0), rest) + Prefixed(Some(1), rest)
  }

  predicate OverChoices(a: Assignment)
  {
    forall k | 0 <= k < |a| :: a[k] in Choices
  }

  /** Every assignment of length n over None, 0 and 1 is enumerated. */
  lemma {:induction false} AssignmentsComplete(a: Assignment)
    requires OverChoices(a)
    ensures a in Assignments(|a|)
  {
    if |a| > 0 {
      var tail := a[1..];
      assert OverChoices(tail);
      AssignmentsComplete(tail);
      PrefixedIn(a, |a| - 1);
    }
  }

  lemma PrefixedIn(a: Assignment, n1: nat)
    requires |a| == n1 + 1 && a[0] in Choices && a[1..] in Assignments(n1)
    ensures a in Assignments(n1 + 1)
  {
    var rest := Assignments(n1);
    var t :| 0 <= t < |rest| && rest[t] == a[1..];
    assert Prefixed(a[0], rest)[t] == a;
    assert Assignments(n1 + 1) == Prefixed(None, rest) + Prefixed(Some(0), rest) + Prefixed(Some(1), rest);
  }

  /** Only assignments of length n over None, 0 and 1 are enumerated. */
  lemma {:induction false} AssignmentsValid(n: nat, a: Assignment)
    requires a in Assignments(n)
    ensures |a| == n && OverChoices(a)
  {
    if n > 0 {
      var n1 := n - 1;
      var rest := Assignments(n1);
      var all := Prefixed(None, rest) + Prefixed(Some(0), rest) + Prefixed(Some(1), rest);
      assert Assignments(n) == all;
      var k :| 0 <= k < |all| && all[k] == a;
      var t := if k < |rest| then k else if k < 2 * |rest| then k - |rest| else k - 2 * |rest|;
      var v := if k < |rest| then None else if k < 2 * |rest| then Some(0) else Some(1);
      assert a == [v] + rest[t];
      AssignmentsValid(n1, rest[t]);
    }
  }

  /** `int(binary[k])` for a binary digit. */
  function DigitBit(ch: char): int
  {
    if ch == '1' then 1 else 0
  }

  /** `all(assignment[k] is None or int(binary[k]) == assignment[k] for k in range(n))` */
  predicate Satisfies(a: Assignment, binary: string)
    requires |binary| >= |a|
  {
    forall k | 0 <= k < |a| :: a[k].None? || DigitBit(binary[k]) == a[k].value
  }

  /** A row's bits agree with the assignment at every position the assignment fixes. */
  predicate Agrees(a: Assignment, bits: seq<int>)
    requires |bits| >= |a|
  {
    forall k | 0 <= k < |a| :: a[k].None? || bits[k] == a[k].value
  }

  /** The cells, in the row-major order of two nested loops, of the first `rows` rows that satisfy p. */
  function RowMajorWhere(rows: nat, cols: nat, p: Cell -> bool): seq<Cell>
  {
    if rows == 0 then [] else RowMajorWhere(rows - 1, cols, p) + RowWhere(rows - 1, cols, p)
  }

  /** The cells (i, j) with j < cols that satisfy p, by ascending j. */
  function RowWhere(i: nat, cols: nat, p: Cell -> bool): seq<Cell>
  {
    if cols == 0 then [] else RowWhere(i, cols - 1, p) + (if p((i, cols - 1)) then [(i, cols - 1)] else [])
  }

  lemma {:induction false} RowWhereMembers(i: nat, cols: nat, p: Cell -> bool)
    ensures forall x :: x in RowWhere(i, cols, p) <==> x.0 == i && x.1 < cols && p(x)
  {
    if cols > 0 {
      RowWhereMembers(i, cols - 1, p);
    }
  }

  /** The filter keeps exactly the cells of the grid that satisfy p. */
  lemma {:induction false} RowMajorWhereMembers(rows: nat, cols: nat, p: Cell -> bool)
    ensures forall x :: x in RowMajorWhere(rows, cols, p) <==> x.0 < rows && x.1 < cols && p(x)
  {
    if rows > 0 {
      var r1 := rows - 1;
      RowMajorWhereMembers(r1, cols, p);
      RowWhereMembers(r1, cols, p);
      forall x ensures x in RowMajorWhere(rows, cols, p) <==> x.0 < rows && x.1 < cols && p(x) {
        assert RowMajorWhere(rows, cols, p) == RowMajorWhere(r1, cols, p) + RowWhere(r1, cols, p);
      }
    }
  }

  /** The test `get_group` applies to a cell. */
  function Satisfying(a: Assignment, rowSeq: seq<nat>, colSeq: seq<nat>, colVarNum: nat): Cell -> bool
  {
    (x: Cell) => x.0 < |rowSeq| && x.1 < |colSeq|
      && Satisfies(a, ToBinary(CellIndex(rowSeq, colSeq, colVarNum, x.0, x.1), |a|))
  }

  /**
   * `get_group`: the cells, row-major, whose table index written with n = len(assignment)
   * binary digits satisfies the assignment.
   */
  method GetGroup(a: Assignment, rowSeq: seq<nat>, colSeq: seq<nat>, rowVarNum: nat, colVarNum: nat)
      returns (group: seq<Cell>)
    requires Pow2(rowVarNum) <= |rowSeq| && Pow2(colVarNum) <= |colSeq|
    ensures group == RowMajorWhere(Pow2(rowVarNum), Pow2(colVarNum), Satisfying(a, rowSeq, colSeq, colVarNum))
  {
    var p := Satisfying(a, rowSeq, colSeq, colVarNum);
    var cols := Pow2(colVarNum);
    group := [];
    for i := 0 to Pow2(rowVarNum)
      invariant group == RowMajorWhere(i, cols, p)
    {
      group := ScanRow(a, rowSeq, colSeq, colVarNum, i, group);
    }
  }

  /** The inner loop of `get_group` over the columns of row i, appending to `group`. */
  method ScanRow(a: Assignment, rowSeq: seq<nat>, colSeq: seq<nat>, colVarNum: nat, i: nat, group0: seq<Cell>)
      returns (group: seq<Cell>)
    requires i < |rowSeq| && Pow2(colVarNum) <= |colSeq|
    ensures group == group0 + RowWhere(i, Pow2(colVarNum), Satisfying(a, rowSeq, colSeq, colVarNum))
  {
    var p := Satisfying(a, rowSeq, colSeq, colVarNum);
    group := group0;
    for j := 0 to Pow2(colVarNum)
      invariant group == group0 + RowWhere(i, j, p)
    {
      var index := Or(rowSeq[i] * Pow2(colVarNum), colSeq[j]);
      var binary := ToBinary(index, |a|);
      if Satisfies(a, binary) {
        group := group + [(i, j)];
      }
    }
  }

  // ---------------------------------------------------------------------------------------
  // What a group holds

  /** A cell inside the grid of the map's row and column sequences. */
  predicate InGrid(m: KarnaughMap, x: Cell)
  {
    x.0 < |m.rowSeq| && x.1 < |m.colSeq|
  }

  /** The table row a cell shows. */
  function IndexOf(m: KarnaughMap, x: Cell): nat
    requires InGrid(m, x)
  {
    CellIndex(m.rowSeq, m.colSeq, m.colVarNum, x.0, x.1)
  }

  /** The group `get_group` collects for an assignment on the map. */
  function GroupOf(m: KarnaughMap, a: Assignment): seq<Cell>
  {
    RowMajorWhere(Pow2(m.rowVarNum), Pow2(m.colVarNum), Satisfying(a, m.rowSeq, m.colSeq, m.colVarNum))
  }

  lemma IndexOfBound(m: KarnaughMap, n: nat, x: Cell)
    requires Shaped(m, n) && InGrid(m, x)
    ensures IndexOf(m, x) < Pow2(n)
  {
    var r, c := m.rowVarNum, m.colVarNum;
    GrayEntry(Pow2(r), x.0);
    GrayEntry(Pow2(c), x.1);
    IndexBound(m.rowSeq[x.0], m.colSeq[x.1], r, c);
  }


  /** Reading the digits of `to_binary(index, n)` is reading the n bits of index. */
  lemma SatisfiesAgrees(a: Assignment, index: nat)
    requires index < Pow2(|a|)
    ensures Satisfies(a, ToBinary(index, |a|)) <==> Agrees(a, Bits(index, |a|))
  {
    ToBinaryBits(index, |a|);
    var bits := Bits(index, |a|);
    if |a| > 0 {
      forall k | 0 <= k < |a| ensures DigitBit(ToBinary(index, |a|)[k]) == bits[k] {
        assert ToBinary(index, |a|)[k] == BitChar(bits[k]);
      }
    }
  }

  /**
   * `get_group` over an n-variable map: a cell belongs to the group of an assignment of
   * length n exactly when the n bits of the table row it shows agree with the assignment.
   */
  lemma GroupMembers(m: KarnaughMap, n: nat, a: Assignment)
    requires Shaped(m, n) && |a| == n
    ensures forall x :: x in GroupOf(m, a) <==> InGrid(m, x) && Agrees(a, Bits(IndexOf(m, x), n))
  {
    var p := Satisfying(a, m.rowSeq, m.colSeq, m.colVarNum);
    RowMajorWhereMembers(Pow2(m.rowVarNum), Pow2(m.colVarNum), p);
    forall x | InGrid(m, x)
      ensures p(x) <==> Agrees(a, Bits(IndexOf(m, x), n))
    {
      IndexOfBound(m, n, x);
      SatisfiesAgrees(a, IndexOf(m, x));
    }
  }
}
