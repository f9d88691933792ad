/**
 * Bit-string arithmetic behind the word operations of lab_7/src/diagonal_matrix.py: the value
 * of a concatenation, comparison by the first differing bit, the ripple-carry sum of
 * `add_fields`, its fit into five bits, and the binary formatting of `search_interval`.
 */
module BitFields {
  import opened Wrappers
  import opened TruthTables

  /** A matrix cell or flag: 0 or 1. */
  type Bit = x: int | 0 <= x <= 1

  /** The exceptions the matrix raises; their messages are not modelled. */
  datatype Failure = ValueError | IndexError

  function MinInt(a: int, b: int): int { if a < b then a else b }

  function MaxInt(a: int, b: int): int { if a < b then b else a }

  /** Python's `s[i:j]` for non-negative bounds. */
  function Slice<T>(s: seq<T>, i: nat, j: nat): (r: seq<T>)
    requires i <= j
    ensures |r| == MinInt(j, |s|) - MinInt(i, |s|)
  {
    s[MinInt(i, |s|)..MinInt(j, |s|)]
  }

  lemma {:induction false} ValueAppend(a: seq<int>, b: seq<int>)
    ensures Value(a + b) == Value(a) * Pow2(|b|) + Value(b)
    decreases |b|
  {
    if |b| == 0 {
      assert a + b == a;
    } else {
      var b1 := b[..|b| - 1];
      assert (a + b)[..|a + b| - 1] == a + b1;
      ValueAppend(a, b1);
      assert Value(a + b) == 2 * (Value(a) * Pow2(|b1|) + Value(b1)) + b[|b| - 1];
    }
  }

  lemma ValueBound(b: seq<Bit>)
    ensures 0 <= Value(b) < Pow2(|b|)
  {
    ValueBits(b);
  }

  /** A bit string one longer at the front: its first bit weighs 2^(rest's length). */
  lemma ValuePrepend(x: int, s: seq<int>)
    ensures Value([x] + s) == x * Pow2(|s|) + Value(s)
  {
    assert Value([x]) == x by {
      assert [x][..0] == [];
    }
    ValueAppend([x], s);
  }

  /** A bit string split after position k: the front shifted past the back. */
  lemma SplitAfter(s: seq<Bit>, k: nat)
    requires k < |s|
    ensures Value(s) == Value(s[..k + 1]) * Pow2(|s| - k - 1) + Value(s[k + 1..])
  {
    var front, back := s[..k + 1], s[k + 1..];
    assert s == front + back;
    ValueAppend(front, back);
  }

  /** A front one larger outweighs any back. */
  lemma Outweighs(x: int, y: int, p: int, rx: int, ry: int)
    requires x == y + 1 && 0 <= rx && ry < p
    ensures x * p + rx > y * p + ry
  {
    assert x * p == y * p + p;
  }

  /** Two equally long bit strings that agree before position k and have 1 and 0 there. */
  lemma FirstDifference(s: seq<Bit>, t: seq<Bit>, k: nat)
    requires |s| == |t| && k < |s| && s[..k] == t[..k] && s[k] == 1 && t[k] == 0
    ensures Value(s) > Value(t)
  {
    var fs, ft := s[..k + 1], t[..k + 1];
    assert fs[..k] == s[..k] && ft[..k] == t[..k];
    assert Value(fs) == Value(ft) + 1;
    SplitAfter(s, k);
    SplitAfter(t, k);
    ValueBound(s[k + 1..]);
    ValueBound(t[k + 1..]);
    Outweighs(Value(fs), Value(ft), Pow2(|s| - k - 1), Value(s[k + 1..]), Value(t[k + 1..]));
  }

  /**
   * The inner loop of `perform_comparison`: the first bit of the field p..q where the word and
   * the value differ sets g (word bit greater) or l (word bit smaller); both stay 0 when they
   * agree. That is the numeric comparison of the field with the value.
   */
  method CompareField(word: seq<Bit>, value: seq<Bit>, p: nat, q: int) returns (g: Bit, l: Bit)
    requires q < |word| && |value| == q - p + 1
    ensures g == 1 <==> Value(word[p..q + 1]) > Value(value)
    ensures l == 1 <==> Value(word[p..q + 1]) < Value(value)
  {
    g, l := 0, 0;
    var field := word[p..q + 1];
    var k := p;
    while k <= q
      invariant p <= k <= q + 1
      invariant field[..k - p] == value[..k - p]
    {
      if word[k] > value[k - p] {
        g := 1;
        assert field[k - p] == word[k];
        FirstDifference(field, value, k - p);
        return;
      } else if word[k] < value[k - p] {
        l := 1;
        assert field[k - p] == word[k];
        FirstDifference(value, field, k - p);
        return;
      }
      assert field[..k + 1 - p] == field[..k - p] + [field[k - p]];
      assert value[..k + 1 - p] == value[..k - p] + [value[k - p]];
      k := k + 1;
    }
    assert field == field[..k - p] && value == value[..k - p];
  }

  /**
   * The ripple-carry loop of `add_fields`: bits are added from the last to the first with a
   * carry that becomes a new leading bit. b is indexed like a, so a shorter b raises IndexError.
   */
  method SumBits(a: seq<Bit>, b: seq<Bit>) returns (r: Result<seq<Bit>, Failure>)
    ensures r.Err? <==> |a| > |b|
    ensures r.Err? ==> r.error == IndexError
    ensures r.Ok? ==> Value(r.value) == Value(a) + Value(b[..|a|])
    ensures r.Ok? ==> |r.value| == |a| || |r.value| == |a| + 1
  {
    if |a| > |b| {
      return Err(IndexError);
    }
    var sum: seq<Bit> := [];
    var carry: Bit := 0;
    var j := |a| - 1;
    while j >= 0
      invariant -1 <= j < |a| && |sum| == |a| - 1 - j
      invariant Value(sum) + carry * Pow2(|sum|) == Value(a[j + 1..]) + Value(b[j + 1..|a|])
    {
      var bitSum := a[j] + b[j] + carry;
      assert a[j..] == [a[j]] + a[j + 1..];
      assert b[j..|a|] == [b[j]] + b[j + 1..|a|];
      ValuePrepend(a[j], a[j + 1..]);
      ValuePrepend(b[j], b[j + 1..|a|]);
      ValuePrepend(bitSum % 2, sum);
      CarryStep(a[j], b[j], carry, Value(sum), Pow2(|sum|), Value(a[j + 1..]), Value(b[j + 1..|a|]));
      sum := [bitSum % 2] + sum;
      carry := bitSum / 2;
      j := j - 1;
    }
    assert a[0..] == a;
    if carry == 1 {
      ValuePrepend(1, sum);
      sum := [carry] + sum;
    }
    return Ok(sum);
  }

  /** One column of the ripple-carry adder: the digit written plus the carry out weigh what was added. */
  lemma CarryStep(x: int, y: int, c: int, v: int, p: int, va: int, vb: int)
    requires v + c * p == va + vb
    ensures ((x + y + c) % 2) * p + v + ((x + y + c) / 2) * (2 * p) == x * p + va + (y * p + vb)
  {
    var t := x + y + c;
    assert t == 2 * (t / 2) + t % 2;
    assert t * p == (2 * (t / 2)) * p + (t % 2) * p;
    assert t * p == x * p + y * p + c * p;
  }

  /** The length fix of `add_fields`: the last five bits, or zeros in front up to five. */
  function FitFive(s: seq<Bit>): (r: seq<Bit>)
    ensures |r| == 5 && Value(r) == Value(s) % 32
  {
    if |s| > 5 then
      var r := s[|s| - 5..];
      assert s == s[..|s| - 5] + r;
      ValueAppend(s[..|s| - 5], r);
      ValueBound(r);
      assert Pow2(5) == 32;
      ModSplit(Value(s[..|s| - 5]), Value(r));
      r
    else if |s| < 5 then
      var r := seq(5 - |s|, _ => 0) + s;
      ValueAppend(seq(5 - |s|, _ => 0), s);
      ZerosValue(5 - |s|);
      ValueBound(s);
      PowMonotone(|s|, 5);
      r
    else
      ValueBound(s);
      s
  }

  lemma ModSplit(x: int, y: int)
    requires 0 <= y < 32
    ensures (x * Pow2(5) + y) % 32 == y
  {
    assert Pow2(5) == 32;
  }

  lemma {:induction false} ZerosValue(n: nat)
    ensures Value(seq(n, _ => 0)) == 0
  {
    if n > 0 {
      assert seq(n, _ => 0)[..n - 1] == seq(n - 1, _ => 0);
      ZerosValue(n - 1);
    }
  }

  lemma {:induction false} PowMonotone(m: nat, n: nat)
    requires m <= n
    ensures Pow2(m) <= Pow2(n)
  {
    if m < n {
      PowMonotone(m, n - 1);
    }
  }

  /** Python's `format(v, '0nb')` digits, or the ValueError a negative number or width gives. */
  function Format(v: int, n: int): (r: Result<seq<Bit>, Failure>)
    ensures r.Err? <==> v < 0 || n < 0
    ensures r.Ok? ==> (|r.value| == n <==> n > 0 && v < Pow2(n))
    ensures r.Ok? && |r.value| == n ==> Value(r.value) == v
  {
    if v < 0 || n < 0 then Err(ValueError)
    else
      var bits: seq<Bit> := Bits(v, MaxInt(n, Width(v)));
      WidthFits(v, n);
      assert n > 0 && v < Pow2(n) ==> Value(Bits(v, n)) == v by {
        if n > 0 && v < Pow2(n) {
          BitsValue(v, n);
        }
      }
      Ok(bits)
  }

  /** The number of binary digits of v, with "0" for zero. */
  function Width(v: nat): (w: nat)
    ensures w >= 1
  {
    if v < 2 then 1 else 1 + Width(v / 2)
  }

  lemma {:induction false} WidthFits(v: nat, n: nat)
    ensures Width(v) <= n <==> n > 0 && v < Pow2(n)
  {
    if v >= 2 && n > 0 {
      WidthFits(v / 2, n - 1);
    }
  }

  /**
   * The new word of a word whose key matched: `a` = bits 3..6 and `b` = bits 7..10 summed,
   * fitted into five bits and written from bit 11 on, as Python slicing does for any length.
   */
  method AddToWord(word: seq<Bit>) returns (r: Result<seq<Bit>, Failure>)
    requires |word| >= 3
    ensures r.Err? <==> 4 <= |word| <= 10
    ensures r.Err? ==> r.error == IndexError
    ensures r.Ok? ==> (|r.value| == |word| <==> |word| == 16)
    ensures |word| == 16 ==> r == Ok(FieldSum(word))
  {
    var a := Slice(word, 3, 7);
    var b := Slice(word, 7, 11);
    var s := SumBits(a, b);
    if s.Err? {
      return Err(s.error);
    }
    var fitted := FitFive(s.value);
    r := Ok(word[..MinInt(11, |word|)] + fitted);
    if |word| == 16 {
      assert a == word[3..7] && b[..|a|] == word[7..11];
      FieldSumFits(word, fitted);
    }
  }

  /** A size-16 word after `add_fields`: bits 0..10 kept, bits 11..15 the five-bit sum of A and B. */
  function FieldSum(word: seq<Bit>): seq<Bit>
    requires |word| == 16
  {
    ValueBound(word[3..7]);
    ValueBound(word[7..11]);
    word[..11] + Bits(Value(word[3..7]) + Value(word[7..11]), 5)
  }

  /** The five result bits hold A + B exactly, which never needs more than five bits. */
  lemma FieldSumValue(word: seq<Bit>)
    requires |word| == 16
    ensures FieldSum(word)[..11] == word[..11] && |FieldSum(word)| == 16
    ensures Value(FieldSum(word)[11..]) == Value(word[3..7]) + Value(word[7..11])
  {
    ValueBound(word[3..7]);
    ValueBound(word[7..11]);
    assert Pow2(4) == 16 && Pow2(5) == 32;
    assert FieldSum(word)[11..] == Bits(Value(word[3..7]) + Value(word[7..11]), 5);
    BitsValue(Value(word[3..7]) + Value(word[7..11]), 5);
  }

  lemma FieldSumFits(word: seq<Bit>, fitted: seq<Bit>)
    requires |word| == 16 && |fitted| == 5
    requires Value(fitted) == (Value(word[3..7]) + Value(word[7..11])) % 32
    ensures word[..11] + fitted == FieldSum(word)
  {
    var v := Value(word[3..7]) + Value(word[7..11]);
    ValueBound(word[3..7]);
    ValueBound(word[7..11]);
    assert Pow2(4) == 16;
    assert Value(fitted) == v;
    ValueBits(fitted);
    assert fitted == Bits(v, 5);
  }
}
