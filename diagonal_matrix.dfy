/**
 * The bit-sliced associative memory of lab_7/src/diagonal_matrix.py: a size x size matrix of
 * bits in which word i is column i read downwards from row i with wrap-around, and diagonal k
 * is the cells (j + k mod size, j). Words and diagonals are read and written in place; the
 * word-level search keeps its g/l/result flags in three flag arrays.
 */
module DiagonalMatrices {
  import opened Wrappers
  import opened TruthTables
  import opened BitFields
  import opened Arithmetic

  /** A matrix given as rows is square of the requested size. */
  predicate Square(size: nat, m: seq<seq<Bit>>)
  {
    |m| == size && forall i | 0 <= i < |m| :: |m[i]| == size
  }

  /** The flags of a list: `result_flags` entries equal to 1, as ascending indices. */
  function FlaggedIndices(flags: seq<Bit>): (r: seq<nat>)
    ensures forall j: nat :: j in r <==> j < |flags| && flags[j] == 1
    ensures forall a, b | 0 <= a < b < |r| :: r[a] < r[b]
  {
    if |flags| == 0 then []
    else
      var n := |flags| - 1;
      var front := FlaggedIndices(flags[..n]);
      assert forall j: nat | j < n :: flags[..n][j] == flags[j];
      assert forall a | 0 <= a < |front| :: front[a] in front && front[a] < n;
      front + (if flags[n] == 1 then [n] else [])
  }

  /** Bit k of word `index` lies in row (k + index) mod size of column `index`. */
  lemma WordRow(size: nat, index: nat, k: nat)
    requires index < size && k < size
    ensures (k + index) % size == if k + index < size then k + index else k + index - size
  {
  }

  /** Cell (i, j) lies on diagonal k exactly when k is congruent to i - j. */
  lemma DiagonalOfCell(size: nat, i: int, j: int, k: int)
    requires 0 <= i < size && 0 <= j < size
    ensures (j + k) % size == i <==> k % size == (i - j) % size
  {
    var k0 := k % size;
    ModAddMultiple(j + k0, k / size, size);
    assert j + k == j + k0 + size * (k / size);
    if j + k0 < size {
      DivModUnique(j + k0, 0, j + k0, size);
    } else {
      DivModUnique(j + k0, 1, j + k0 - size, size);
    }
    if i >= j {
      DivModUnique(i - j, 0, i - j, size);
    } else {
      DivModUnique(i - j, -1, i - j + size, size);
    }
  }

  /**
   * `inhibition`: a and not b, element by element. Python's `&` on a 0/1 int and a bool is
   * their product; lists of different lengths raise ValueError.
   */
  function Inhibition(a: seq<Bit>, b: seq<Bit>): (r: Result<seq<Bit>, Failure>)
    ensures |a| != |b| ==> r == Err(ValueError)
    ensures |a| == |b| ==> r.Ok? && |r.value| == |a|
    ensures r.Ok? ==> forall i | 0 <= i < |a| :: (r.value[i] == 1 <==> a[i] == 1 && b[i] == 0)
  {
    if |a| != |b| then Err(ValueError)
    else Ok(seq(|a|, i requires 0 <= i < |a| => a[i] * (1 - b[i])))
  }

  /** `disjunction`: a or b, element by element (Python's `|` on 0/1 ints). */
  function Disjunction(a: seq<Bit>, b: seq<Bit>): (r: Result<seq<Bit>, Failure>)
    ensures |a| != |b| ==> r == Err(ValueError)
    ensures |a| == |b| ==> r.Ok? && |r.value| == |a|
    ensures r.Ok? ==> forall i | 0 <= i < |a| :: (r.value[i] == 1 <==> a[i] == 1 || b[i] == 1)
  {
    if |a| != |b| then Err(ValueError)
    else Ok(seq(|a|, i requires 0 <= i < |a| => 1 - (1 - a[i]) * (1 - b[i])))
  }

  /** `peirce`: neither a nor b, element by element (`int(not (a | b))`). */
  function Peirce(a: seq<Bit>, b: seq<Bit>): (r: Result<seq<Bit>, Failure>)
    ensures |a| != |b| ==> r == Err(ValueError)
    ensures |a| == |b| ==> r.Ok? && |r.value| == |a|
    ensures r.Ok? ==> forall i | 0 <= i < |a| :: (r.value[i] == 1 <==> a[i] == 0 && b[i] == 0)
  {
    if |a| != |b| then Err(ValueError)
    else Ok(seq(|a|, i requires 0 <= i < |a| => (1 - a[i]) * (1 - b[i])))
  }

  /** `implication`: not a, or b, element by element (`(not a) | b`). */
  function Implication(a: seq<Bit>, b: seq<Bit>): (r: Result<seq<Bit>, Failure>)
    ensures |a| != |b| ==> r == Err(ValueError)
    ensures |a| == |b| ==> r.Ok? && |r.value| == |a|
    ensures r.Ok? ==> forall i | 0 <= i < |a| :: (r.value[i] == 1 <==> a[i] == 0 || b[i] == 1)
  {
    if |a| != |b| then Err(ValueError)
    else Ok(seq(|a|, i requires 0 <= i < |a| => 1 - a[i] * (1 - b[i])))
  }

  /** Every bit flipped. */
  function Complement(a: seq<Bit>): (r: seq<Bit>)
    ensures |r| == |a| && forall i | 0 <= i < |a| :: r[i] == 1 - a[i]
  {
    seq(|a|, i requires 0 <= i < |a| => 1 - a[i])
  }

  /** The four operations come in complementary pairs: inhibition negates implication, Peirce's arrow negates disjunction. */
  lemma LogicDuals(a: seq<Bit>, b: seq<Bit>)
    requires |a| == |b|
    ensures Inhibition(a, b) == Ok(Complement(Implication(a, b).value))
    ensures Peirce(a, b) == Ok(Complement(Disjunction(a, b).value))
  {
    var inh, imp := Inhibition(a, b).value, Implication(a, b).value;
    var pei, dis := Peirce(a, b).value, Disjunction(a, b).value;
    forall i | 0 <= i < |a|
      ensures inh[i] == Complement(imp)[i] && pei[i] == Complement(dis)[i]
    {
      assert inh[i] == 1 <==> imp[i] == 0;
      assert pei[i] == 1 <==> dis[i] == 0;
    }
    assert inh == Complement(imp);
    assert pei == Complement(dis);
  }

  /** The word a size-16 word becomes under `add_fields(key)`: the field sum if its first three bits are the key. */
  function AddedWord(w: seq<Bit>, key: seq<Bit>): seq<Bit>
  {
    if |w| == 16 && w[..3] == key then FieldSum(w) else w
  }

  /** `word[:3] == key` for a key of length 3. */
  predicate KeyMatches(w: seq<Bit>, key: seq<Bit>)
  {
    |w| >= 3 && w[..3] == key
  }

  class DiagonalMatrix {
    const size: nat
    const matrix: array2<Bit>
    var gFlags: array<Bit>
    var lFlags: array<Bit>
    var resultFlags: array<Bit>

    /** The matrix is size x size. */
    predicate Shaped()
    {
      matrix.Length0 == size && matrix.Length1 == size
    }

    /** Shaped, and three distinct flag arrays of length size. */
    ghost predicate Valid()
      reads this
    {
      Shaped() &&
      gFlags.Length == size && lFlags.Length == size && resultFlags.Length == size &&
      gFlags != lFlags && gFlags != resultFlags && lFlags != resultFlags
    }

    /** `__init__` with a matrix supplied: the rows are kept and all flags start at 0. */
    constructor (size: nat, m: seq<seq<Bit>>)
      requires Square(size, m)
      ensures Valid() && this.size == size
      ensures forall i, j | 0 <= i < size && 0 <= j < size :: matrix[i, j] == m[i][j]
      ensures forall j | 0 <= j < size :: gFlags[j] == 0 && lFlags[j] == 0 && resultFlags[j] == 0
      ensures fresh(matrix) && fresh(gFlags) && fresh(lFlags) && fresh(resultFlags)
    {
      this.size := size;
      matrix := new Bit[size, size]((i, j) => if 0 <= i < |m| && 0 <= j < |m[i]| then m[i][j] else 0);
      gFlags := new Bit[size](_ => 0);
      lFlags := new Bit[size](_ => 0);
      resultFlags := new Bit[size](_ => 0);
    }

    /** `get_column`: the cells of column `index` from top to bottom; an index past the matrix raises IndexError. */
    function GetColumn(index: nat): (r: Result<seq<Bit>, Failure>)
      reads matrix
      requires Shaped()
      ensures r.Err? <==> size > 0 && index >= size
      ensures r.Err? ==> r.error == IndexError
      ensures r.Ok? ==> |r.value| == size && forall i | 0 <= i < size :: r.value[i] == matrix[i, index]
    {
      if size > 0 && index >= size then Err(IndexError)
      else Ok(seq(size, i requires 0 <= i < size reads matrix => matrix[i, index]))
    }

    /** `find_word`: the column rotated left by its index, so bit k of word i is cell (k + i mod size, i). */
    function FindWord(index: nat): (r: Result<seq<Bit>, Failure>)
      reads matrix
      requires Shaped()
      ensures r.Err? <==> size > 0 && index >= size
      ensures r.Err? ==> r.error == IndexError
      ensures r.Ok? ==> |r.value| == size
      ensures r.Ok? ==> forall k | 0 <= k < size :: r.value[k] == matrix[(k + index) % size, index]
    {
      match GetColumn(index)
      case Err(e) => Err(e)
      case Ok(col) =>
        if size == 0 then Ok([])
        else
          var w := col[index..] + col[..index];
          assert forall k | 0 <= k < size :: w[k] == col[(k + index) % size] by {
            forall k | 0 <= k < size ensures w[k] == col[(k + index) % size] {
              WordRow(size, index, k);
            }
          }
          Ok(w)
    }

    /** The value of bits p..q of word j. */
    function FieldValue(j: nat, p: nat, q: int): int
      reads matrix
      requires Shaped() && j < size && p <= q + 1 <= size
    {
      Value(FindWord(j).value[p..q + 1])
    }

    /**
     * `change_word`: the word is rotated right by its index and written into its column, so
     * that `find_word` gives it back and every other word stays as it was. A word of the
     * wrong length raises ValueError, an index past the matrix IndexError, and neither writes.
     */
    method ChangeWord(index: nat, w: seq<Bit>) returns (r: Result<(), Failure>)
      requires Shaped()
      modifies matrix
      ensures r == if |w| != size then Err(ValueError)
                   else if size > 0 && index >= size then Err(IndexError)
                   else Ok(())
      ensures r.Err? ==> unchanged(matrix)
      ensures r.Ok? ==> FindWord(index) == Ok(w)
      ensures r.Ok? ==> forall j | 0 <= j < size && j != index :: FindWord(j) == old(FindWord(j))
      ensures forall i, j | 0 <= i < size && 0 <= j < size && j != index :: matrix[i, j] == old(matrix[i, j])
    {
      if |w| != size {
        return Err(ValueError);
      }
      if size > 0 && index >= size {
        return Err(IndexError);
      }
      if size == 0 {
        return Ok(());
      }
      var rotated := w[size - index..] + w[..size - index];
      var i := 0;
      while i < size
        invariant 0 <= i <= size
        invariant forall a, c | 0 <= a < size && 0 <= c < size ::
          matrix[a, c] == if c == index && a < i then rotated[a] else old(matrix[a, c])
      {
        matrix[i, index] := rotated[i];
        i := i + 1;
      }
      forall k | 0 <= k < size
        ensures matrix[(k + index) % size, index] == w[k]
      {
        WordRow(size, index, k);
      }
      assert FindWord(index).value == w;
      forall j | 0 <= j < size && j != index
        ensures FindWord(j) == old(FindWord(j))
      {
        assert FindWord(j).value == old(FindWord(j)).value;
      }
      return Ok(());
    }

    /** `find_diagonal`: cell (j + k mod size, j) for every column j (Python's `%` is floored, like Dafny's here). */
    function FindDiagonal(k: int): (r: seq<Bit>)
      reads matrix
      requires Shaped()
      ensures |r| == size
    {
      seq(size, j requires 0 <= j < size reads matrix => matrix[(j + k) % size, j])
    }

    /**
     * `change_diagonal`: writes exactly the cells of diagonal k, so reading it back gives the
     * new diagonal and every diagonal not congruent to k is untouched. A diagonal of the wrong
     * length raises ValueError and writes nothing.
     */
    method ChangeDiagonal(k: int, d: seq<Bit>) returns (r: Result<(), Failure>)
      requires Shaped()
      modifies matrix
      ensures r == if |d| != size then Err(ValueError) else Ok(())
      ensures r.Err? ==> unchanged(matrix)
      ensures r.Ok? ==> FindDiagonal(k) == d
      ensures r.Ok? ==> forall i, j | 0 <= i < size && 0 <= j < size ::
        matrix[i, j] == if i == (j + k) % size then d[j] else old(matrix[i, j])
      ensures r.Ok? ==> forall m | size > 0 && m % size != k % size :: FindDiagonal(m) == old(FindDiagonal(m))
    {
      if |d| != size {
        return Err(ValueError);
      }
      var j := 0;
      while j < size
        invariant 0 <= j <= size
        invariant forall a, c | 0 <= a < size && 0 <= c < size ::
          matrix[a, c] == if c < j && a == (c + k) % size then d[c] else old(matrix[a, c])
      {
        matrix[(j + k) % size, j] := d[j];
        j := j + 1;
      }
      assert FindDiagonal(k) == d;
      forall m | size > 0 && m % size != k % size
        ensures FindDiagonal(m) == old(FindDiagonal(m))
      {
        forall c | 0 <= c < size
          ensures FindDiagonal(m)[c] == old(FindDiagonal(m))[c]
        {
          DiagonalOfCell(size, (c + m) % size, c, m);
          DiagonalOfCell(size, (c + m) % size, c, k);
        }
        assert FindDiagonal(m) == old(FindDiagonal(m));
      }
      return Ok(());
    }

    /**
     * `add_fields`: every size-16 word whose bits 0..2 equal the key gets bits 11..15 set to the
     * five-bit sum of the fields 3..6 and 7..10; other words are unchanged. A key of length other
     * than 3 raises ValueError. At any other size the first matching word fails before anything
     * is written: with IndexError when the 7..10 field is cut short (sizes 4 to 10), otherwise
     * with the ValueError of `change_word`, since the rebuilt word is not size bits long.
     */
    method AddFields(key: seq<Bit>) returns (r: Result<(), Failure>)
      requires Shaped()
      modifies matrix
      ensures r.Err? <==> |key| != 3 || (size != 16 && exists j | 0 <= j < size :: KeyMatches(old(FindWord(j)).value, key))
      ensures r.Err? ==> r.error == if |key| == 3 && 4 <= size <= 10 then IndexError else ValueError
      ensures r.Err? ==> unchanged(matrix)
      ensures r.Ok? ==> forall j | 0 <= j < size :: FindWord(j) == Ok(AddedWord(old(FindWord(j)).value, key))
    {
      if |key| != 3 {
        return Err(ValueError);
      }
      r := Ok(());
      var i := 0;
      while i < size
        invariant 0 <= i <= size
        invariant r == Ok(())
        invariant forall j | 0 <= j < i :: FindWord(j) == Ok(AddedWord(old(FindWord(j)).value, key))
        invariant forall j | i <= j < size :: FindWord(j) == old(FindWord(j))
        invariant size != 16 ==> forall j | 0 <= j < i :: !KeyMatches(old(FindWord(j)).value, key)
        invariant size != 16 ==> unchanged(matrix)
      {
        var step := AddToWordAt(i, key);
        if step.Err? {
          return step;
        }
        i := i + 1;
      }
    }

    /** One pass of the `add_fields` loop: word i is rebuilt and written back if its first three bits are the key. */
    method AddToWordAt(i: nat, key: seq<Bit>) returns (r: Result<(), Failure>)
      requires Shaped() && i < size && |key| == 3
      modifies matrix
      ensures r.Err? <==> size != 16 && KeyMatches(old(FindWord(i)).value, key)
      ensures r.Err? ==> r.error == if 4 <= size <= 10 then IndexError else ValueError
      ensures size != 16 ==> unchanged(matrix)
      ensures r.Ok? ==> FindWord(i) == Ok(AddedWord(old(FindWord(i)).value, key))
      ensures forall j | 0 <= j < size && j != i :: FindWord(j) == old(FindWord(j))
    {
      var word := FindWord(i).value;
      if |word| >= 3 && word[..3] == key {
        var added := AddToWord(word);
        if added.Err? {
          return Err(added.error);
        }
        r := ChangeWord(i, added.value);
      } else {
        r := Ok(());
      }
    }

    /**
     * `perform_comparison`: for every word, g is set when the field p..q is greater than the
     * value and l when it is smaller, from the first differing bit. A value of the wrong length
     * raises ValueError before any flag changes.
     */
    method PerformComparison(value: seq<Bit>, p: nat, q: int) returns (r: Result<(), Failure>)
      requires Valid() && q < size
      modifies gFlags, lFlags
      ensures r == if |value| != q - p + 1 then Err(ValueError) else Ok(())
      ensures r.Err? ==> unchanged(gFlags) && unchanged(lFlags)
      ensures r.Ok? ==> forall j | 0 <= j < size ::
        (gFlags[j] == 1 <==> FieldValue(j, p, q) > Value(value)) &&
        (lFlags[j] == 1 <==> FieldValue(j, p, q) < Value(value))
    {
      if |value| != q - p + 1 {
        return Err(ValueError);
      }
      var j := 0;
      while j < size
        invariant 0 <= j <= size
        invariant forall i | 0 <= i < j ::
          (gFlags[i] == 1 <==> FieldValue(i, p, q) > Value(value)) &&
          (lFlags[i] == 1 <==> FieldValue(i, p, q) < Value(value))
      {
        var word := FindWord(j).value;
        var g, l := CompareField(word, value, p, q);
        gFlags[j] := g;
        lFlags[j] := l;
        j := j + 1;
      }
      return Ok(());
    }

    /** `initialize_result_flags`: a fresh list of size ones. */
    method InitializeResultFlags()
      requires Valid()
      modifies this
      ensures Valid() && fresh(resultFlags)
      ensures gFlags == old(gFlags) && lFlags == old(lFlags)
      ensures forall j | 0 <= j < size :: resultFlags[j] == 1
    {
      resultFlags := new Bit[size](_ => 1);
    }

    /** `apply_less_than_condition`: a result flag survives only where the comparison found the field smaller (g = 0, l = 1). */
    method ApplyLessThanCondition()
      requires Valid()
      modifies resultFlags
      ensures forall j | 0 <= j < size ::
        resultFlags[j] == if gFlags[j] == 0 && lFlags[j] == 1 then old(resultFlags[j]) else 0
    {
      var j := 0;
      while j < size
        invariant 0 <= j <= size
        invariant forall i | 0 <= i < size ::
          resultFlags[i] == if i < j && !(gFlags[i] == 0 && lFlags[i] == 1) then 0 else old(resultFlags[i])
      {
        if gFlags[j] == 1 || (gFlags[j] == 0 && lFlags[j] == 0) {
          resultFlags[j] := 0;
        }
        j := j + 1;
      }
    }

    /** `apply_greater_than_condition`: a result flag survives only where the comparison found the field greater (g = 1). */
    method ApplyGreaterThanCondition()
      requires Valid()
      modifies resultFlags
      ensures forall j | 0 <= j < size ::
        resultFlags[j] == if gFlags[j] == 1 then old(resultFlags[j]) else 0
    {
      var j := 0;
      while j < size
        invariant 0 <= j <= size
        invariant forall i | 0 <= i < size ::
          resultFlags[i] == if i < j && gFlags[i] == 0 then 0 else old(resultFlags[i])
      {
        if gFlags[j] == 0 {
          resultFlags[j] := 0;
        }
        j := j + 1;
      }
    }

    /**
     * `search_interval`: the indices, ascending, of the words whose field p..q lies strictly
     * between lower and upper. The bounds are formatted to the field's width first; a negative
     * bound, a bound too wide for the field or an empty field raises ValueError.
     */
    method SearchInterval(lower: int, upper: int, p: nat, q: int) returns (r: Result<seq<nat>, Failure>)
      requires Valid() && q < size
      modifies this, gFlags, lFlags
      ensures Valid() && unchanged(matrix)
      ensures r.Err? <==> !(q - p + 1 > 0 && 0 <= lower < Pow2(q - p + 1) && 0 <= upper < Pow2(q - p + 1))
      ensures r.Ok? ==> forall j: nat :: j in r.value <==> j < size && lower < FieldValue(j, p, q) < upper
      ensures r.Ok? ==> forall a, b | 0 <= a < b < |r.value| :: r.value[a] < r.value[b]
    {
      var n := q - p + 1;
      var lowerBits := Format(lower, n);
      if lowerBits.Err? {
        return Err(lowerBits.error);
      }
      var upperBits := Format(upper, n);
      if upperBits.Err? {
        return Err(upperBits.error);
      }
      InitializeResultFlags();
      var cmp := PerformComparison(upperBits.value, p, q);
      if cmp.Err? {
        return Err(cmp.error);
      }
      ApplyLessThanCondition();
      assert forall j | 0 <= j < size :: resultFlags[j] == 1 <==> FieldValue(j, p, q) < upper;
      cmp := PerformComparison(lowerBits.value, p, q);
      if cmp.Err? {
        return Err(cmp.error);
      }
      ApplyGreaterThanCondition();
      r := Ok(FlaggedIndices(resultFlags[..]));
    }
  }

  /** `__init__` with a supplied matrix: ValueError unless it is size x size. */
  method Create(size: nat, m: seq<seq<Bit>>) returns (r: Result<DiagonalMatrix, Failure>)
    ensures r.Err? <==> !Square(size, m)
    ensures r.Err? ==> r.error == ValueError
    ensures r.Ok? ==> fresh(r.value) && r.value.Valid() && r.value.size == size
    ensures r.Ok? ==> forall i, j | 0 <= i < size && 0 <= j < size :: r.value.matrix[i, j] == m[i][j]
  {
    if !Square(size, m) {
      return Err(ValueError);
    }
    var d := new DiagonalMatrix(size, m);
    return Ok(d);
  }
}
