/**
 * Truth tables and the canonical forms built from them (lab_3 and lab_5 `TruthTable` over
 * 0/1 integers, lab_2 `TruthTable` over booleans).  Rows are enumerated as
 * `itertools.product([0, 1], repeat=n)` does: row i holds the n-bit binary of i with the
 * first variable as the most significant bit, followed by the function's value.
 * The formula itself is a parameter: a total evaluator of one assignment.
 */
module TruthTables {
  import opened Text
  import opened Ordered

  function Pow2(n: nat): (r: nat)
    ensures r >= 1
  {
    if n == 0 then 1 else 2 * Pow2(n - 1)
  }

  lemma {:induction false} Pow2Add(a: nat, b: nat)
    ensures Pow2(a + b) == Pow2(a) * Pow2(b)
  {
    if a > 0 {
      Pow2Add(a - 1, b);
      assert Pow2(a + b) == 2 * Pow2(a - 1 + b);
    }
  }

  /** The n-bit binary of i, most significant bit first (tuple i of `product([0, 1], repeat=n)`). */
  function Bits(i: nat, n: nat): (r: seq<int>)
    ensures |r| == n
    ensures forall k | 0 <= k < n :: r[k] == 0 || r[k] == 1
  {
    if n == 0 then [] else Bits(i / 2, n - 1) + [i % 2]
  }

  predicate IsBitVector(b: seq<int>)
  {
    forall k | 0 <= k < |b| :: b[k] == 0 || b[k] == 1
  }

  /** The number a bit vector denotes, most significant bit first. */
  function Value(b: seq<int>): int
  {
    if |b| == 0 then 0 else 2 * Value(b[..|b| - 1]) + b[|b| - 1]
  }

  lemma {:induction false} BitsValue(i: nat, n: nat)
    requires i < Pow2(n)
    ensures Value(Bits(i, n)) == i
  {
    if n > 0 {
      BitsValue(i / 2, n - 1);
      assert Bits(i, n)[..n - 1] == Bits(i / 2, n - 1);
    }
  }

  lemma {:induction false} ValueBits(b: seq<int>)
    requires IsBitVector(b)
    ensures 0 <= Value(b) < Pow2(|b|)
    ensures Bits(Value(b), |b|) == b
  {
    if |b| > 0 {
      var p := b[..|b| - 1];
      ValueBits(p);
      assert Value(b) / 2 == Value(p);
      assert b == p + [b[|b| - 1]];
    }
  }

  /** Every 0/1 vector of length n is row Value(b) of the enumeration, and only that row. */
  lemma RowsEnumerateAssignments(b: seq<int>, i: nat)
    requires IsBitVector(b) && i < Pow2(|b|)
    ensures Bits(i, |b|) == b <==> i == Value(b)
  {
    ValueBits(b);
    if Bits(i, |b|) == b {
      BitsValue(i, |b|);
    }
  }

  /** Python's `row.count(1)`. */
  function CountOnes(row: seq<int>): (r: nat)
    ensures r <= |row|
  {
    if |row| == 0 then 0 else CountOnes(row[..|row| - 1]) + (if row[|row| - 1] == 1 then 1 else 0)
  }

  /** The value column of a row (`row[-1]`). */
  function Last(row: seq<int>): int
    requires |row| > 0
  {
    row[|row| - 1]
  }

  predicate RowsNonEmpty(table: seq<seq<int>>)
  {
    forall j | 0 <= j < |table| :: |table[j]| > 0
  }

  /**
   * The index lists the constructors build: with `one`, the rows whose value is 1
   * (`num_form_pdnf`), otherwise every other row (`num_form_pcnf`), in row order.
   */
  function Indices(table: seq<seq<int>>, one: bool): (r: seq<nat>)
    requires RowsNonEmpty(table)
  {
    if |table| == 0 then []
    else
      Indices(table[..|table| - 1], one)
        + (if (Last(table[|table| - 1]) == 1) == one then [|table| - 1] else [])
  }

  /** The index lists are ascending and hold exactly the rows of the requested kind. */
  lemma {:induction false} IndicesSpec(table: seq<seq<int>>, one: bool)
    requires RowsNonEmpty(table)
    ensures StrictlyAscendingNat(Indices(table, one))
    ensures forall i :: i in Indices(table, one) <==> 0 <= i < |table| && (Last(table[i]) == 1) == one
  {
    if |table| > 0 {
      var prefix := table[..|table| - 1];
      IndicesSpec(prefix, one);
      var rest := Indices(prefix, one);
      assert forall k | 0 <= k < |rest| :: rest[k] < |prefix| by {
        forall k | 0 <= k < |rest| ensures rest[k] < |prefix| {
          assert rest[k] in rest;
        }
      }
      assert forall i | 0 <= i < |prefix| :: table[i] == prefix[i];
    }
  }

  predicate StrictlyAscendingNat(s: seq<nat>)
  {
    forall i, j | 0 <= i < j < |s| :: s[i] < s[j]
  }

  /** The two index lists are ascending and partition the row numbers. */
  lemma IndicesPartition(table: seq<seq<int>>, i: nat)
    requires RowsNonEmpty(table) && i < |table|
    ensures StrictlyAscendingNat(Indices(table, true)) && StrictlyAscendingNat(Indices(table, false))
    ensures i in Indices(table, true) <==> i !in Indices(table, false)
    ensures i in Indices(table, true) <==> Last(table[i]) == 1
  {
    IndicesSpec(table, true);
    IndicesSpec(table, false);
  }

  /** Appending a row extends the index list of its kind by the new row number. */
  lemma IndicesSnoc(table: seq<seq<int>>, row: seq<int>, one: bool)
    requires RowsNonEmpty(table) && |row| > 0
    ensures RowsNonEmpty(table + [row])
    ensures Indices(table + [row], one) == Indices(table, one) + (if (Last(row) == 1) == one then [|table|] else [])
  {
    assert (table + [row])[..|table|] == table;
  }

  /** Row i of the table generated from `evaluate` over n variables. */
  function GeneratedRow(n: nat, evaluate: seq<int> -> bool, i: nat): (r: seq<int>)
    ensures |r| == n + 1 && r[..n] == Bits(i, n)
    ensures r[n] == if evaluate(Bits(i, n)) then 1 else 0
  {
    Bits(i, n) + [if evaluate(Bits(i, n)) then 1 else 0]
  }

  /** The table `_generate_table` builds: 2^n rows in binary order. */
  function GeneratedTable(n: nat, evaluate: seq<int> -> bool): (t: seq<seq<int>>)
    ensures |t| == Pow2(n)
    ensures forall i | 0 <= i < |t| :: t[i] == GeneratedRow(n, evaluate, i)
  {
    seq(Pow2(n), i requires 0 <= i => GeneratedRow(n, evaluate, i))
  }

  /** A table as the formula constructors build it: 2^n rows, each n 0/1 bits and a 0/1 value. */
  predicate WellFormed(n: nat, table: seq<seq<int>>)
  {
    && |table| == Pow2(n)
    && (forall j | 0 <= j < |table| :: |table[j]| == n + 1 && IsBitVector(table[j]))
    && (forall j | 0 <= j < |table| :: table[j][..n] == Bits(j, n))
  }

  lemma GeneratedTableWellFormed(n: nat, evaluate: seq<int> -> bool)
    ensures WellFormed(n, GeneratedTable(n, evaluate))
    ensures RowsNonEmpty(GeneratedTable(n, evaluate))
  {
    var t := GeneratedTable(n, evaluate);
    forall j | 0 <= j < |t| ensures IsBitVector(t[j]) {
      assert t[j] == Bits(j, n) + [t[j][n]];
    }
  }

  /** A truth table with 0/1 integer cells (lab_3 and lab_5). */
  class TruthTable {
    var variables: seq<string>
    var table: seq<seq<int>>
    var numFormPdnf: seq<nat>
    var numFormPcnf: seq<nat>

    /** The formula constructor and `_generate_table`: one row per assignment, in binary order. */
    constructor FromFunction(variables: seq<string>, evaluate: seq<int> -> bool)
      ensures this.variables == variables
      ensures table == GeneratedTable(|variables|, evaluate)
      ensures RowsNonEmpty(table)
      ensures numFormPdnf == Indices(table, true)
      ensures numFormPcnf == Indices(table, false)
    {
      var n := |variables|;
      var rows: seq<seq<int>> := [];
      var pdnf: seq<nat> := [];
      var pcnf: seq<nat> := [];
      var i := 0;
      while i < Pow2(n)
        invariant 0 <= i <= Pow2(n)
        invariant |rows| == i
        invariant forall j | 0 <= j < i :: rows[j] == GeneratedRow(n, evaluate, j)
        invariant RowsNonEmpty(rows)
        invariant pdnf == Indices(rows, true) && pcnf == Indices(rows, false)
      {
        var combination := Bits(i, n);
        var result := if evaluate(combination) then 1 else 0;
        var row := combination + [result];
        IndicesSnoc(rows, row, true);
        IndicesSnoc(rows, row, false);
        if result == 1 {
          pdnf := pdnf + [i];
        } else {
          pcnf := pcnf + [i];
        }
        rows := rows + [row];
        i := i + 1;
      }
      assert rows == GeneratedTable(n, evaluate);
      this.variables := variables;
      table := rows;
      numFormPdnf := pdnf;
      numFormPcnf := pcnf;
    }

    /** The lab_5 explicit-table constructor and `_calculate_forms`: the rows are kept as given. */
    constructor FromRows(table: seq<seq<int>>, variables: seq<string>)
      requires RowsNonEmpty(table)
      ensures this.variables == variables && this.table == table
      ensures numFormPdnf == Indices(table, true)
      ensures numFormPcnf == Indices(table, false)
    {
      this.variables := variables;
      this.table := table;
      numFormPcnf := [];
      numFormPdnf := [];
      new;
      var i := 0;
      while i < |table|
        invariant 0 <= i <= |table|
        invariant this.variables == variables && this.table == table
        invariant RowsNonEmpty(table[..i])
        invariant numFormPdnf == Indices(table[..i], true)
        invariant numFormPcnf == Indices(table[..i], false)
      {
        var result := table[i][|table[i]| - 1];
        assert table[..i + 1][..i] == table[..i];
        if result == 1 {
          numFormPdnf := numFormPdnf + [i];
        } else {
          numFormPcnf := numFormPcnf + [i];
        }
        i := i + 1;
      }
      assert table[..|table|] == table;
    }
  }

  // ---------------------------------------------------------------------------------------
  // The forms.  They take the table's data; the lab_2 boolean table supplies its rows as
  // polarity vectors too.

  /** `f"({', '.join(map(str, indices))}) {op}"`: the numeric forms `(i, j, ...) |` and `(...) &`. */
  function NumForm(indices: seq<nat>, op: string): (r: string)
    ensures |r| >= 2 + |op| && r[0] == '('
    ensures r[|r| - 1 - |op|..] == " " + op
  {
    "(" + Join(seq(|indices|, k requires 0 <= k < |indices| => NatToString(indices[k])), ", ") + ") " + op
  }

  /** `get_index_form`: start from 2^n zeros and set position i to '1' for every PDNF index i. */
  method IndexForm(n: nat, pdnf: seq<nat>) returns (r: string)
    requires forall k | 0 <= k < |pdnf| :: pdnf[k] < Pow2(n)
    ensures |r| == Pow2(n)
    ensures forall i | 0 <= i < Pow2(n) :: r[i] == if i in pdnf then '1' else '0'
  {
    r := seq(Pow2(n), _ => '0');
    var k := 0;
    while k < |pdnf|
      invariant 0 <= k <= |pdnf|
      invariant |r| == Pow2(n)
      invariant forall i | 0 <= i < Pow2(n) :: r[i] == if i in pdnf[..k] then '1' else '0'
    {
      assert pdnf[..k + 1] == pdnf[..k] + [pdnf[k]];
      r := r[pdnf[k] := '1'];
      k := k + 1;
    }
    assert pdnf[..k] == pdnf;
  }

  /** The literal polarities of the listed rows of an integer table: bit truthy (`table[j][i]`). */
  function Polarities(table: seq<seq<int>>, indices: seq<nat>, n: nat): (p: seq<seq<bool>>)
    requires forall k | 0 <= k < |indices| :: indices[k] < |table| && |table[indices[k]]| >= n
    ensures |p| == |indices|
    ensures forall k | 0 <= k < |p| :: |p[k]| == n
    ensures forall k, i | 0 <= k < |p| && 0 <= i < n :: p[k][i] == (table[indices[k]][i] != 0)
  {
    seq(|indices|, k requires 0 <= k < |indices| =>
      seq(n, i requires 0 <= i < n => table[indices[k]][i] != 0))
  }

  /** The polarities of the PDNF (`one`) or PCNF rows of a table whose rows have at least n cells. */
  function FormPolarities(table: seq<seq<int>>, one: bool, n: nat): (p: seq<seq<bool>>)
    requires RowsNonEmpty(table)
    requires forall j | 0 <= j < |table| :: |table[j]| >= n
  {
    var idx := Indices(table, one);
    IndicesSpec(table, one);
    assert forall k | 0 <= k < |idx| :: idx[k] < |table| by {
      forall k | 0 <= k < |idx| ensures idx[k] < |table| {
        assert idx[k] in idx;
      }
    }
    Polarities(table, idx, n)
  }

  /** One literal of a form: the variable, or `!` and the variable. */
  function Literal(v: string, negated: bool): string
  {
    if negated then "!" + v else v
  }

  /** One parenthesised term: literal i is negated when its polarity equals `negateWhen`. */
  function Term(variables: seq<string>, polarity: seq<bool>, negateWhen: bool, sep: string): string
    requires |polarity| == |variables|
  {
    "(" + Join(seq(|variables|, i requires 0 <= i < |variables| =>
      Literal(variables[i], polarity[i] == negateWhen)), sep) + ")"
  }

  /** `get_pdnf`: one `&`-term per PDNF row, literal negated when its bit is 0, joined by `|`. */
  function Pdnf(variables: seq<string>, polarities: seq<seq<bool>>): (r: string)
    requires forall k | 0 <= k < |polarities| :: |polarities[k]| == |variables|
    ensures |polarities| == 0 <==> r == ""
  {
    Join(seq(|polarities|, k requires 0 <= k < |polarities| =>
      Term(variables, polarities[k], false, "&")), "|")
  }

  /** `get_pcnf`: one `|`-term per PCNF row, literal negated when its bit is 1, joined by `&`. */
  function Pcnf(variables: seq<string>, polarities: seq<seq<bool>>): (r: string)
    requires forall k | 0 <= k < |polarities| :: |polarities[k]| == |variables|
    ensures |polarities| == 0 <==> r == ""
  {
    Join(seq(|polarities|, k requires 0 <= k < |polarities| =>
      Term(variables, polarities[k], true, "|")), "&")
  }

  /** The value of the PDNF whose terms have the given polarities, at assignment b. */
  predicate DnfHolds(polarities: seq<seq<bool>>, b: seq<int>)
  {
    exists k | 0 <= k < |polarities| ::
      |polarities[k]| == |b| && forall i | 0 <= i < |b| :: (b[i] != 0) == polarities[k][i]
  }

  /** The value of the PCNF whose clauses have the given polarities, at assignment b. */
  predicate CnfHolds(polarities: seq<seq<bool>>, b: seq<int>)
  {
    forall k | 0 <= k < |polarities| ::
      |polarities[k]| == |b| && exists i | 0 <= i < |b| :: (b[i] != 0) != polarities[k][i]
  }

  /** Row j of a well-formed table agrees with assignment b in truthiness exactly when j is b's row. */
  lemma RowMatch(n: nat, t: seq<seq<int>>, j: nat, b: seq<int>)
    requires WellFormed(n, t) && j < |t| && |b| == n && IsBitVector(b)
    ensures (forall i | 0 <= i < n :: (b[i] != 0) == (t[j][i] != 0)) <==> j == Value(b)
  {
    ValueBits(b);
    assert t[j][..n] == Bits(j, n);
    assert forall i | 0 <= i < n :: t[j][i] == Bits(j, n)[i];
    if forall i | 0 <= i < n :: (b[i] != 0) == (t[j][i] != 0) {
      assert Bits(j, n) == b;
      RowsEnumerateAssignments(b, j);
    }
  }

  /** The PDNF of a well-formed table is true at b exactly when b's row has value 1. */
  lemma DnfOfTable(n: nat, t: seq<seq<int>>, b: seq<int>)
    requires WellFormed(n, t) && RowsNonEmpty(t) && |b| == n && IsBitVector(b)
    ensures 0 <= Value(b) < |t| && (DnfHolds(FormPolarities(t, true, n), b) <==> Last(t[Value(b)]) == 1)
  {
    ValueBits(b);
    if Last(t[Value(b)]) == 1 {
      DnfOfTableIf(n, t, b);
    }
    if DnfHolds(FormPolarities(t, true, n), b) {
      DnfOfTableOnlyIf(n, t, b);
    }
  }

  lemma DnfOfTableIf(n: nat, t: seq<seq<int>>, b: seq<int>)
    requires WellFormed(n, t) && RowsNonEmpty(t) && |b| == n && IsBitVector(b)
    requires 0 <= Value(b) < |t| && Last(t[Value(b)]) == 1
    ensures DnfHolds(FormPolarities(t, true, n), b)
  {
    var idx := Indices(t, true);
    IndicesSpec(t, true);
    var p := FormPolarities(t, true, n);
    assert Value(b) in idx;
    var k :| 0 <= k < |idx| && idx[k] == Value(b);
    RowMatch(n, t, Value(b), b);
    assert |p[k]| == |b| && forall i | 0 <= i < |b| :: (b[i] != 0) == p[k][i];
  }

  lemma DnfOfTableOnlyIf(n: nat, t: seq<seq<int>>, b: seq<int>)
    requires WellFormed(n, t) && RowsNonEmpty(t) && |b| == n && IsBitVector(b)
    requires DnfHolds(FormPolarities(t, true, n), b)
    ensures 0 <= Value(b) < |t| && Last(t[Value(b)]) == 1
  {
    ValueBits(b);
    var idx := Indices(t, true);
    IndicesSpec(t, true);
    var p := FormPolarities(t, true, n);
    var k :| 0 <= k < |p| && |p[k]| == |b| && forall i | 0 <= i < |b| :: (b[i] != 0) == p[k][i];
    var j := idx[k];
    assert j in idx;
    RowMatch(n, t, j, b);
  }

  /** The PCNF of a well-formed table is true at b exactly when b's row has value 1. */
  lemma CnfOfTable(n: nat, t: seq<seq<int>>, b: seq<int>)
    requires WellFormed(n, t) && RowsNonEmpty(t) && |b| == n && IsBitVector(b)
    ensures 0 <= Value(b) < |t| && (CnfHolds(FormPolarities(t, false, n), b) <==> Last(t[Value(b)]) == 1)
  {
    ValueBits(b);
    if Last(t[Value(b)]) != 1 {
      CnfOfTableFalse(n, t, b);
    }
    if !CnfHolds(FormPolarities(t, false, n), b) {
      CnfOfTableFails(n, t, b);
    }
  }

  lemma CnfOfTableFalse(n: nat, t: seq<seq<int>>, b: seq<int>)
    requires WellFormed(n, t) && RowsNonEmpty(t) && |b| == n && IsBitVector(b)
    requires 0 <= Value(b) < |t| && Last(t[Value(b)]) != 1
    ensures !CnfHolds(FormPolarities(t, false, n), b)
  {
    var idx := Indices(t, false);
    IndicesSpec(t, false);
    var p := FormPolarities(t, false, n);
    assert Value(b) in idx;
    var k :| 0 <= k < |idx| && idx[k] == Value(b);
    RowMatch(n, t, Value(b), b);
    assert forall i | 0 <= i < |b| :: (b[i] != 0) == p[k][i];
  }

  lemma CnfOfTableFails(n: nat, t: seq<seq<int>>, b: seq<int>)
    requires WellFormed(n, t) && RowsNonEmpty(t) && |b| == n && IsBitVector(b)
    requires !CnfHolds(FormPolarities(t, false, n), b)
    ensures 0 <= Value(b) < |t| && Last(t[Value(b)]) != 1
  {
    ValueBits(b);
    var idx := Indices(t, false);
    IndicesSpec(t, false);
    var p := FormPolarities(t, false, n);
    var k :| 0 <= k < |p| && !(|p[k]| == |b| && exists i | 0 <= i < |b| :: (b[i] != 0) != p[k][i]);
    var j := idx[k];
    assert j in idx;
    RowMatch(n, t, j, b);
  }

  /** The PDNF of a generated table is true at exactly the assignments where the function is. */
  lemma PdnfDenotesFunction(n: nat, evaluate: seq<int> -> bool, b: seq<int>)
    requires |b| == n && IsBitVector(b)
    ensures DnfHolds(FormPolarities(GeneratedTable(n, evaluate), true, n), b) <==> evaluate(b)
  {
    GeneratedTableWellFormed(n, evaluate);
    DnfOfTable(n, GeneratedTable(n, evaluate), b);
    ValueBits(b);
  }

  /** The PCNF of a generated table is true at exactly the assignments where the function is. */
  lemma PcnfDenotesFunction(n: nat, evaluate: seq<int> -> bool, b: seq<int>)
    requires |b| == n && IsBitVector(b)
    ensures CnfHolds(FormPolarities(GeneratedTable(n, evaluate), false, n), b) <==> evaluate(b)
  {
    GeneratedTableWellFormed(n, evaluate);
    CnfOfTable(n, GeneratedTable(n, evaluate), b);
    ValueBits(b);
  }

  // ---------------------------------------------------------------------------------------
  // Constituents and popcount groups.

  /** Python's `row[:-1]`. */
  function DropLast<T>(row: seq<T>): seq<T>
  {
    if |row| == 0 then [] else row[..|row| - 1]
  }

  /** `get_pdnf_constituents` / `get_pcnf_constituents`: the listed rows without their value, in list order. */
  function Constituents(table: seq<seq<int>>, indices: seq<nat>): (r: seq<seq<int>>)
    requires forall k | 0 <= k < |indices| :: indices[k] < |table|
    ensures |r| == |indices|
    ensures forall k | 0 <= k < |r| :: r[k] == DropLast(table[indices[k]])
  {
    seq(|indices|, k requires 0 <= k < |indices| => DropLast(table[indices[k]]))
  }

  /** The constituents with exactly w ones, in their original order. */
  function WithOnes(cs: seq<seq<int>>, w: int): (r: seq<seq<int>>)
  {
    if |cs| == 0 then []
    else WithOnes(cs[..|cs| - 1], w) + (if CountOnes(cs[|cs| - 1]) == w then [cs[|cs| - 1]] else [])
  }

  lemma WithOnesSnoc(cs: seq<seq<int>>, c: seq<int>, w: int)
    ensures WithOnes(cs + [c], w) == WithOnes(cs, w) + (if CountOnes(c) == w then [c] else [])
  {
    assert (cs + [c])[..|cs|] == cs;
  }

  /** A constituent is filed under w exactly when it has w ones. */
  lemma {:induction false} WithOnesMembers(cs: seq<seq<int>>, w: int, c: seq<int>)
    ensures c in WithOnes(cs, w) <==> c in cs && CountOnes(c) == w
  {
    if |cs| > 0 {
      var prefix := cs[..|cs| - 1];
      WithOnesMembers(prefix, w, c);
      assert cs == prefix + [cs[|cs| - 1]];
    }
  }

  /** `groups` files exactly the constituents `cs` by their count of ones, each key's list in order. */
  ghost predicate GroupsOf(groups: Groups<seq<int>>, cs: seq<seq<int>>)
  {
    && DistinctKeys(groups)
    && (forall w :: Get(groups, w) == WithOnes(cs, w))
    && (forall w :: Has(groups, w) <==> WithOnes(cs, w) != [])
    && multiset(Flatten(groups)) == multiset(cs)
  }

  lemma GroupStep(groups: Groups<seq<int>>, cs: seq<seq<int>>, row: seq<int>)
    requires GroupsOf(groups, cs)
    ensures GroupsOf(Append(groups, CountOnes(row), row), cs + [row])
  {
    forall w ensures WithOnes(cs + [row], w) == WithOnes(cs, w) + (if CountOnes(row) == w then [row] else []) {
      WithOnesSnoc(cs, row, w);
    }
    FlattenAppend(groups, CountOnes(row), row);
  }

  /** The dictionary `group_pdnf` / `group_pcnf` builds from the constituents cs, in their order. */
  function GroupedByOnes(cs: seq<seq<int>>): Groups<seq<int>>
  {
    if |cs| == 0 then []
    else Append(GroupedByOnes(cs[..|cs| - 1]), CountOnes(cs[|cs| - 1]), cs[|cs| - 1])
  }

  /** It files exactly the constituents, each under its count of ones, in their order. */
  lemma {:induction false} GroupedByOnesSpec(cs: seq<seq<int>>)
    ensures GroupsOf(GroupedByOnes(cs), cs)
  {
    if |cs| > 0 {
      var prefix, row := cs[..|cs| - 1], cs[|cs| - 1];
      assert prefix + [row] == cs;
      GroupedByOnesSpec(prefix);
      GroupStep(GroupedByOnes(prefix), prefix, row);
    }
  }

  /**
   * `group_pdnf` / `group_pcnf`: file each listed constituent under its count of ones with
   * `setdefault(row.count(1), []).append(row)`.
   */
  method GroupByOnes(table: seq<seq<int>>, indices: seq<nat>) returns (groups: Groups<seq<int>>)
    requires forall k | 0 <= k < |indices| :: indices[k] < |table|
    ensures groups == GroupedByOnes(Constituents(table, indices))
    ensures GroupsOf(groups, Constituents(table, indices))
  {
    var cs := Constituents(table, indices);
    groups := [];
    var k := 0;
    while k < |indices|
      invariant 0 <= k <= |indices|
      invariant groups == GroupedByOnes(cs[..k])
    {
      var row := cs[k];
      assert cs[..k + 1][..k] == cs[..k];
      groups := Append(groups, CountOnes(row), row);
      k := k + 1;
    }
    assert cs[..k] == cs;
    GroupedByOnesSpec(cs);
  }

  // ---------------------------------------------------------------------------------------
  // The lab_2 table: boolean cells, raw results.

  /** Assignment i over n variables as booleans (`product([False, True], repeat=n)`). */
  function BoolBits(i: nat, n: nat): (r: seq<bool>)
    ensures |r| == n
  {
    seq(n, k requires 0 <= k < n => Bits(i, n)[k] == 1)
  }

  /** A boolean row read as 0/1 integers. */
  function IntRow(row: seq<bool>): (r: seq<int>)
    ensures |r| == |row|
  {
    seq(|row|, k requires 0 <= k < |row| => if row[k] then 1 else 0)
  }

  /** A boolean table read as 0/1 integers. */
  function IntTable(table: seq<seq<bool>>): (r: seq<seq<int>>)
    ensures |r| == |table|
    ensures forall j | 0 <= j < |r| :: r[j] == IntRow(table[j])
  {
    seq(|table|, j requires 0 <= j < |table| => IntRow(table[j]))
  }

  /** A boolean evaluator viewed as an evaluator of 0/1 vectors (truthiness of each bit). */
  function IntEvaluator(evaluate: seq<bool> -> bool): seq<int> -> bool
  {
    (b: seq<int>) => evaluate(seq(|b|, k requires 0 <= k < |b| => b[k] != 0))
  }

  /** Row i of the lab_2 table: the boolean assignment followed by the raw result. */
  function BoolRow(n: nat, evaluate: seq<bool> -> bool, i: nat): (r: seq<bool>)
    ensures |r| == n + 1
  {
    BoolBits(i, n) + [evaluate(BoolBits(i, n))]
  }

  predicate BoolRowsNonEmpty(table: seq<seq<bool>>)
  {
    forall j | 0 <= j < |table| :: |table[j]| > 0
  }

  /** The lab_2 index lists: the rows whose raw result is truthy (`truthy`) or falsy, in row order. */
  function BoolIndices(table: seq<seq<bool>>, truthy: bool): (r: seq<nat>)
    requires BoolRowsNonEmpty(table)
  {
    if |table| == 0 then []
    else
      var row := table[|table| - 1];
      BoolIndices(table[..|table| - 1], truthy) + (if row[|row| - 1] == truthy then [|table| - 1] else [])
  }

  /** Appending a row extends the lab_2 index list of its kind by the new row number. */
  lemma BoolIndicesSnoc(table: seq<seq<bool>>, row: seq<bool>, truthy: bool)
    requires BoolRowsNonEmpty(table) && |row| > 0
    ensures BoolRowsNonEmpty(table + [row])
    ensures BoolIndices(table + [row], truthy)
            == BoolIndices(table, truthy) + (if row[|row| - 1] == truthy then [|table|] else [])
  {
    assert (table + [row])[..|table|] == table;
  }

  /** A truth table whose cells are booleans (lab_2). */
  class BoolTruthTable {
    var variables: seq<string>
    var table: seq<seq<bool>>
    var numFormPdnf: seq<nat>
    var numFormPcnf: seq<nat>

    /** `_generate_table` of lab_2: rows in binary order with the raw result appended. */
    constructor FromFunction(variables: seq<string>, evaluate: seq<bool> -> bool)
      ensures this.variables == variables
      ensures |table| == Pow2(|variables|)
      ensures forall j | 0 <= j < |table| :: table[j] == BoolRow(|variables|, evaluate, j)
      ensures BoolRowsNonEmpty(table)
      ensures numFormPdnf == BoolIndices(table, true)
      ensures numFormPcnf == BoolIndices(table, false)
    {
      var n := |variables|;
      var rows: seq<seq<bool>> := [];
      var pdnf: seq<nat> := [];
      var pcnf: seq<nat> := [];
      var i := 0;
      while i < Pow2(n)
        invariant 0 <= i <= Pow2(n)
        invariant |rows| == i
        invariant forall j | 0 <= j < i :: rows[j] == BoolRow(n, evaluate, j)
        invariant BoolRowsNonEmpty(rows)
        invariant pdnf == BoolIndices(rows, true) && pcnf == BoolIndices(rows, false)
      {
        var combination := BoolBits(i, n);
        var result := evaluate(combination);
        var row := combination + [result];
        BoolIndicesSnoc(rows, row, true);
        BoolIndicesSnoc(rows, row, false);
        if result {
          pdnf := pdnf + [i];
        } else {
          pcnf := pcnf + [i];
        }
        rows := rows + [row];
        i := i + 1;
      }
      this.variables := variables;
      table := rows;
      numFormPdnf := pdnf;
      numFormPcnf := pcnf;
    }
  }

  /** Each lab_2 row, read as integers, is the lab_3 row of the same function. */
  lemma BoolRowAsInts(n: nat, evaluate: seq<bool> -> bool, i: nat)
    ensures IntRow(BoolRow(n, evaluate, i)) == GeneratedRow(n, IntEvaluator(evaluate), i)
  {
    var bits := Bits(i, n);
    assert seq(|bits|, k requires 0 <= k < |bits| => bits[k] != 0) == BoolBits(i, n);
    assert IntRow(BoolBits(i, n)) == bits;
  }

  /** Read as integers, the lab_2 index lists are the lab_3 ones. */
  lemma {:induction false} BoolIndicesAsInts(table: seq<seq<bool>>, truthy: bool)
    requires BoolRowsNonEmpty(table)
    ensures RowsNonEmpty(IntTable(table))
    ensures BoolIndices(table, truthy) == Indices(IntTable(table), truthy)
  {
    if |table| > 0 {
      var prefix := table[..|table| - 1];
      BoolIndicesAsInts(prefix, truthy);
      assert IntTable(table)[..|table| - 1] == IntTable(prefix);
    }
  }

  /**
   * The lab_2 table, read as integers, is the lab_3 table of the same function, and its index
   * lists are the lab_3 ones: the lab_3 forms and their lemmas apply to it unchanged.
   */
  lemma BoolTableAsInts(n: nat, evaluate: seq<bool> -> bool, table: seq<seq<bool>>)
    requires |table| == Pow2(n)
    requires forall j | 0 <= j < |table| :: table[j] == BoolRow(n, evaluate, j)
    ensures BoolRowsNonEmpty(table)
    ensures IntTable(table) == GeneratedTable(n, IntEvaluator(evaluate))
    ensures BoolIndices(table, true) == Indices(IntTable(table), true)
    ensures BoolIndices(table, false) == Indices(IntTable(table), false)
  {
    forall j | 0 <= j < |table| ensures IntTable(table)[j] == GeneratedTable(n, IntEvaluator(evaluate))[j] {
      BoolRowAsInts(n, evaluate, j);
    }
    BoolIndicesAsInts(table, true);
    BoolIndicesAsInts(table, false);
  }
}

/** The lab_2 test vectors for the formula `x & y`. */
module TruthTableExamples {
  import opened Text
  import opened TruthTables

  /** The evaluator of `x & y` over the variables [x, y]. */
  function XAndY(b: seq<bool>): bool
  {
    |b| == 2 && b[0] && b[1]
  }

  /** The table the lab_2 constructor builds for `x & y`. */
  lemma XAndYTable(table: seq<seq<bool>>)
    requires |table| == Pow2(2)
    requires forall j | 0 <= j < |table| :: table[j] == BoolRow(2, XAndY, j)
    ensures table == XAndYRows()
  {
    assert Bits(0, 2) == [0, 0] && Bits(1, 2) == [0, 1] && Bits(2, 2) == [1, 0] && Bits(3, 2) == [1, 1];
    assert BoolBits(0, 2) == [false, false];
    assert BoolBits(1, 2) == [false, true];
    assert BoolBits(2, 2) == [true, false];
    assert BoolBits(3, 2) == [true, true];
    assert table[0] == BoolRow(2, XAndY, 0) == [false, false, false];
    assert table[1] == BoolRow(2, XAndY, 1) == [false, true, false];
    assert table[2] == BoolRow(2, XAndY, 2) == [true, false, false];
    assert table[3] == BoolRow(2, XAndY, 3) == [true, true, true];
  }

  function XAndYRows(): seq<seq<bool>>
  {
    [[false, false, false], [false, true, false], [true, false, false], [true, true, true]]
  }

  /** Its index lists: PDNF `[3]`, PCNF `[0, 1, 2]`. */
  lemma XAndYIndices()
    ensures BoolIndices(XAndYRows(), true) == [3] && BoolIndices(XAndYRows(), false) == [0, 1, 2]
  {
    var t := XAndYRows();
    var t1, t2, t3 := t[..1], t[..2], t[..3];
    assert t3[..2] == t2 && t2[..1] == t1 && t1[..0] == [];
    assert t1 == [[false, false, false]];
    assert BoolIndices(t1[..0], true) == [] && BoolIndices(t1[..0], false) == [];
    assert BoolIndices(t1, true) == [] && BoolIndices(t1, false) == [0];
    assert BoolIndices(t2, true) == [] && BoolIndices(t2, false) == [0, 1];
    assert BoolIndices(t3, true) == [] && BoolIndices(t3, false) == [0, 1, 2];
    assert t[..3] == t3;
  }

  /** Its numeric forms "(3) |" and "(0, 1, 2) &". */
  lemma XAndYNumForms()
    ensures NumForm([3], "|") == "(3) |"
    ensures NumForm([0, 1, 2], "&") == "(0, 1, 2) &"
  {
    assert seq(3, k requires 0 <= k < 3 => NatToString([0, 1, 2][k])) == ["0", "1", "2"];
    assert seq(1, k requires 0 <= k < 1 => NatToString([3][k])) == ["3"];
    assert Join(["0", "1", "2"], ", ") == "0, 1, 2";
  }

  /** Its index form "0001": any string meeting `IndexForm`'s postcondition for PDNF `[3]`. */
  lemma XAndYIndexForm(r: string)
    requires |r| == Pow2(2)
    requires forall i | 0 <= i < Pow2(2) :: r[i] == if i in [3] then '1' else '0'
    ensures r == "0001"
  {
    assert Pow2(2) == 4;
    assert r[0] == '0' && r[1] == '0' && r[2] == '0' && r[3] == '1';
  }

  /** The literal polarities of its PCNF and PDNF rows, read from the row contents. */
  lemma XAndYPolarities()
    ensures BoolRowsNonEmpty(XAndYRows())
    ensures FormPolarities(IntTable(XAndYRows()), false, 2) == [[false, false], [false, true], [true, false]]
    ensures FormPolarities(IntTable(XAndYRows()), true, 2) == [[true, true]]
  {
    var t := XAndYRows();
    XAndYIndices();
    BoolIndicesAsInts(t, true);
    BoolIndicesAsInts(t, false);
    var it := IntTable(t);
    assert it[0] == [0, 0, 0] && it[1] == [0, 1, 0] && it[2] == [1, 0, 0] && it[3] == [1, 1, 1];
    var p := FormPolarities(it, false, 2);
    assert p[0] == [false, false] && p[1] == [false, true] && p[2] == [true, false];
    var q := FormPolarities(it, true, 2);
    assert q[0] == [true, true];
  }

  /** The lab_2 test strings: PCNF "(x|y)&(x|!y)&(!x|y)" and PDNF "(x&y)". */
  lemma XAndYCanonicalForms()
    ensures Pcnf(["x", "y"], [[false, false], [false, true], [true, false]]) == "(x|y)&(x|!y)&(!x|y)"
    ensures Pdnf(["x", "y"], [[true, true]]) == "(x&y)"
  {
    var vs := ["x", "y"];
    assert Literal("y", true) == "!y" && Literal("x", true) == "!x";
    assert Term(vs, [false, false], true, "|") == "(x|y)" by {
      assert seq(2, i requires 0 <= i < 2 => Literal(vs[i], [false, false][i] == true)) == ["x", "y"];
    }
    assert Term(vs, [false, true], true, "|") == "(x|!y)" by {
      assert seq(2, i requires 0 <= i < 2 => Literal(vs[i], [false, true][i] == true)) == ["x", "!y"];
    }
    assert Term(vs, [true, false], true, "|") == "(!x|y)" by {
      assert seq(2, i requires 0 <= i < 2 => Literal(vs[i], [true, false][i] == true)) == ["!x", "y"];
    }
    assert Term(vs, [true, true], false, "&") == "(x&y)" by {
      assert seq(2, i requires 0 <= i < 2 => Literal(vs[i], [true, true][i] == false)) == ["x", "y"];
    }
    var ps := [[false, false], [false, true], [true, false]];
    assert seq(3, k requires 0 <= k < 3 => Term(vs, ps[k], true, "|")) == ["(x|y)", "(x|!y)", "(!x|y)"];
    assert seq(1, k requires 0 <= k < 1 => Term(vs, [[true, true]][k], false, "&")) == ["(x&y)"];
    assert Join(["(x|y)", "(x|!y)", "(!x|y)"], "&") == "(x|y)&(x|!y)&(!x|y)";
  }
}
