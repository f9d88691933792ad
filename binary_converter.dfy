/**
 * The integer readings of `BinaryConverter` in lab_1/src/digit_representation/binary_data_types.py,
 * with the bit-string helpers of `BinaryInt` that they share: strings of '0' and '1', their
 * unsigned value, the binary digits of a number, the ripple-carry `_binary_sum`, and the
 * sign-magnitude, ones' and two's complement readings of a code.
 */
module BinaryConverter {
  import opened Wrappers
  import opened TruthTables
  import opened Arithmetic
  import BitFields

  /** The exceptions of the integer codes; their messages are not modelled. */
  datatype Exception = ValueError | IndexError | AssertionError | OverflowError | ZeroDivisionError

  /** Every character is '0' or '1' (`all(bit in "01" for bit in binary)`). */
  predicate IsBinary(s: string)
  {
    forall i | 0 <= i < |s| :: s[i] == '0' || s[i] == '1'
  }

  /** `int(bit)` for a binary digit. */
  function Digit(c: char): BitFields.Bit
  {
    if c == '1' then 1 else 0
  }

  /** The bits of a string, one per character. */
  function Digits(s: string): (b: seq<BitFields.Bit>)
    ensures |b| == |s|
  {
    seq(|s|, i requires 0 <= i < |s| => Digit(s[i]))
  }

  /** The string of a bit vector. */
  function Chars(b: seq<int>): (s: string)
    ensures |s| == |b| && IsBinary(s)
  {
    seq(|b|, i requires 0 <= i < |b| => if b[i] == 1 then '1' else '0')
  }

  /** `k * "0"`, empty for k <= 0. */
  function Zeros(k: int): (s: string)
    ensures |s| == (if k < 0 then 0 else k) && IsBinary(s)
  {
    seq(if k < 0 then 0 else k, _ => '0')
  }

  /** `to_decimal`: the base-2 value of a binary string, most significant digit first. */
  function ToDecimal(bits: string): (r: nat)
    requires IsBinary(bits)
    ensures r < Pow2(|bits|)
  {
    BitFields.ValueBound(Digits(bits));
    Value(Digits(bits))
  }

  /** The value of a concatenation: the front is shifted past the back. */
  lemma ToDecimalAppend(s: string, t: string)
    requires IsBinary(s) && IsBinary(t)
    ensures IsBinary(s + t)
    ensures ToDecimal(s + t) == ToDecimal(s) * Pow2(|t|) + ToDecimal(t)
  {
    var ds, dt := Digits(s), Digits(t);
    forall i | 0 <= i < |s + t|
      ensures Digits(s + t)[i] == (ds + dt)[i]
    {
      if i < |s| {
        assert (s + t)[i] == s[i];
      } else {
        assert (s + t)[i] == t[i - |s|];
      }
    }
    assert Digits(s + t) == ds + dt;
    BitFields.ValueAppend(ds, dt);
  }

  /** One more digit at the end doubles the value and adds the digit. */
  lemma ToDecimalPush(s: string, c: char)
    requires IsBinary(s) && (c == '0' || c == '1')
    ensures IsBinary(s + [c]) && ToDecimal(s + [c]) == 2 * ToDecimal(s) + Digit(c)
  {
    assert Digits(s + [c])[..|s|] == Digits(s);
  }

  /** One more digit at the front adds its weight. */
  lemma ToDecimalPrepend(c: char, s: string)
    requires IsBinary(s) && (c == '0' || c == '1')
    ensures IsBinary([c] + s) && ToDecimal([c] + s) == (if c == '1' then Pow2(|s|) else 0) + ToDecimal(s)
  {
    var p := Pow2(|s|);
    ToDecimalDigit(c);
    ToDecimalAppend([c], s);
    DigitWeight(c, ToDecimal([c]), p);
  }

  /** A single digit is worth itself. */
  lemma ToDecimalDigit(c: char)
    requires c == '0' || c == '1'
    ensures IsBinary([c]) && ToDecimal([c]) == Digit(c)
  {
    assert "" + [c] == [c];
    ToDecimalPush("", c);
  }

  /** A digit's weight at place value p. */
  lemma DigitWeight(c: char, x: int, p: int)
    requires x == Digit(c)
    ensures x * p == (if c == '1' then p else 0)
  {
  }

  /** Zeros weigh nothing. */
  lemma ZerosValue(k: int)
    ensures ToDecimal(Zeros(k)) == 0
  {
    BitFields.ZerosValue(|Zeros(k)|);
    assert Digits(Zeros(k)) == seq(|Zeros(k)|, _ => 0);
  }

  /** Zeros in front change nothing. */
  lemma ZerosPrefix(k: int, s: string)
    requires IsBinary(s)
    ensures IsBinary(Zeros(k) + s) && ToDecimal(Zeros(k) + s) == ToDecimal(s)
  {
    ToDecimalAppend(Zeros(k), s);
    ZerosValue(k);
  }

  /** The first digit is '1' exactly when the value reaches the first digit's weight. */
  lemma LeadingDigit(s: string)
    requires IsBinary(s) && |s| > 0
    ensures s[0] == '1' <==> ToDecimal(s) >= Pow2(|s| - 1)
  {
    assert s == [s[0]] + s[1..];
    ToDecimalPrepend(s[0], s[1..]);
  }

  /** The w-digit binary string of v mod 2^w. */
  function Fixed(v: nat, w: nat): (s: string)
    ensures |s| == w && IsBinary(s)
  {
    Chars(Bits(v, w))
  }

  lemma DigitsOfChars(b: seq<int>)
    requires IsBitVector(b)
    ensures Digits(Chars(b)) == b
  {
  }

  /** A value below 2^w reads back from its w-digit string. */
  lemma FixedValue(v: nat, w: nat)
    requires v < Pow2(w)
    ensures ToDecimal(Fixed(v, w)) == v
  {
    DigitsOfChars(Bits(v, w));
    BitsValue(v, w);
  }

  /** A binary string is the fixed-width string of its own value: length and value determine it. */
  lemma FixedOf(s: string)
    requires IsBinary(s)
    ensures s == Fixed(ToDecimal(s), |s|)
  {
    ValueBits(Digits(s));
    assert Chars(Digits(s)) == s;
  }

  /** Two binary strings of one length and one value are equal. */
  lemma SameValue(s: string, t: string)
    requires IsBinary(s) && IsBinary(t) && |s| == |t| && ToDecimal(s) == ToDecimal(t)
    ensures s == t
  {
    FixedOf(s);
    FixedOf(t);
  }

  /** The digits of a number as `_get_binary_simple` produces them: empty for zero, no leading zeros. */
  function BinaryDigits(v: nat): (s: string)
    ensures IsBinary(s)
    decreases v
  {
    if v == 0 then "" else BinaryDigits(v / 2) + [if v % 2 == 1 then '1' else '0']
  }

  /** The digits read back as the number, and a positive number's digits start with '1'. */
  lemma {:induction false} BinaryDigitsValue(v: nat)
    ensures ToDecimal(BinaryDigits(v)) == v
    ensures |BinaryDigits(v)| == 0 <==> v == 0
    ensures v > 0 ==> BinaryDigits(v)[0] == '1'
    decreases v
  {
    if v > 0 {
      var c := if v % 2 == 1 then '1' else '0';
      BinaryDigitsValue(v / 2);
      ToDecimalPush(BinaryDigits(v / 2), c);
    }
  }

  /** v has at most w digits exactly when it is below 2^w. */
  lemma {:induction false} BinaryDigitsWidth(v: nat, w: nat)
    ensures |BinaryDigits(v)| <= w <==> v < Pow2(w)
    decreases v
  {
    if v > 0 && w > 0 {
      BinaryDigitsWidth(v / 2, w - 1);
    }
  }

  /** `s.lstrip("0")`. */
  function LStripZeros(s: string): (r: string)
    ensures |r| <= |s|
    ensures |r| > 0 ==> r[0] != '0'
  {
    if |s| > 0 && s[0] == '0' then LStripZeros(s[1..]) else s
  }

  /** Stripping the zeros in front of a w-digit string leaves the digits of its value. */
  lemma {:induction false} StripFixed(v: nat, w: nat)
    requires v < Pow2(w)
    ensures LStripZeros(Fixed(v, w)) == BinaryDigits(v)
    decreases w
  {
    var s := Fixed(v, w);
    FixedValue(v, w);
    BinaryDigitsValue(v);
    BinaryDigitsWidth(v, w);
    if w > 0 {
      LeadingDigit(s);
      if v < Pow2(w - 1) {
        assert s == [s[0]] + s[1..];
        ToDecimalPrepend(s[0], s[1..]);
        FixedOf(s[1..]);
        StripFixed(v, w - 1);
      } else {
        BinaryDigitsWidth(v, w - 1);
        SameValue(s, BinaryDigits(v));
      }
    }
  }

  /** Stripping stops at the first character that is not '0'. */
  lemma {:induction false} StripBefore(s: string, t: string)
    requires |t| > 0 && t[0] != '0'
    ensures LStripZeros(s + t) == LStripZeros(s) + t
  {
    if |s| > 0 {
      assert (s + t)[1..] == s[1..] + t;
      StripBefore(s[1..], t);
    }
  }

  /** Every digit flipped. */
  function Invert(s: string): (r: string)
    ensures |r| == |s| && IsBinary(r)
  {
    seq(|s|, i requires 0 <= i < |s| => if s[i] == '0' then '1' else '0')
  }

  /** A string and its inversion add up to all ones. */
  lemma {:induction false} InvertValue(s: string)
    requires IsBinary(s)
    ensures ToDecimal(s) + ToDecimal(Invert(s)) == Pow2(|s|) - 1
    decreases |s|
  {
    if |s| > 0 {
      var front, c := s[..|s| - 1], s[|s| - 1];
      assert s == front + [c];
      assert Invert(s) == Invert(front) + [Invert(s)[|s| - 1]];
      InvertValue(front);
      ToDecimalPush(front, c);
      ToDecimalPush(Invert(front), Invert(s)[|s| - 1]);
    }
  }

  /** A '1' in front of an inversion: the ones' complement weight of a negative magnitude. */
  lemma OnesPrefixValue(f: string)
    requires IsBinary(f)
    ensures IsBinary("1" + Invert(f)) && ToDecimal("1" + Invert(f)) == 2 * Pow2(|f|) - 1 - ToDecimal(f)
  {
    var g := Invert(f);
    var p := Pow2(|g|);
    InvertValue(f);
    ToDecimalPrepend('1', g);
  }

  /** Inverting twice gives the string back. */
  lemma InvertTwice(s: string)
    requires IsBinary(s)
    ensures Invert(Invert(s)) == s
  {
  }

  /** `_get_binary`'s zero padding of the digits of v to w places is the w-digit string of v when v fits. */
  lemma PaddedFixed(v: nat, w: nat)
    requires v < Pow2(w)
    ensures Zeros(w - |BinaryDigits(v)|) + BinaryDigits(v) == Fixed(v, w)
  {
    var d := BinaryDigits(v);
    var padded := Zeros(w - |d|) + d;
    BinaryDigitsWidth(v, w);
    BinaryDigitsValue(v);
    ZerosPrefix(w - |d|, d);
    FixedValue(v, w);
    SameValue(padded, Fixed(v, w));
  }

  /** `convert_sign_magnitude`: the first digit is the sign, the others the magnitude. */
  function ConvertSignMagnitude(binary: string): (r: Result<int, Exception>)
    ensures !IsBinary(binary) ==> r == Err(ValueError)
    ensures IsBinary(binary) && |binary| == 0 ==> r == Err(IndexError)
    ensures r.Ok? ==> |binary| > 0 && -(Pow2(|binary| - 1) as int) < r.value < Pow2(|binary| - 1)
    ensures r.Ok? ==> (r.value < 0 ==> binary[0] == '1') && (binary[0] == '1' ==> r.value <= 0)
  {
    if !IsBinary(binary) then Err(ValueError)
    else if |binary| == 0 then Err(IndexError)
    else
      var sign := if binary[0] == '1' then -1 else 1;
      Ok(sign * ToDecimal(binary[1..]))
  }

  /** `convert_ones_complement`: a leading '1' negates the inverted remaining digits. */
  function ConvertOnesComplement(binary: string): (r: Result<int, Exception>)
    ensures !IsBinary(binary) ==> r == Err(ValueError)
    ensures IsBinary(binary) && |binary| == 0 ==> r == Err(IndexError)
    ensures r.Ok? ==> |binary| > 0 && -(Pow2(|binary| - 1) as int) < r.value < Pow2(|binary| - 1)
    ensures r.Ok? ==> (r.value < 0 ==> binary[0] == '1') && (binary[0] == '1' ==> r.value <= 0)
  {
    if !IsBinary(binary) then Err(ValueError)
    else if |binary| == 0 then Err(IndexError)
    else
      var sign := if binary[0] == '1' then -1 else 1;
      var stripNumber := if sign == -1 then Invert(binary[1..]) else binary[1..];
      Ok(sign * ToDecimal(stripNumber))
  }

  /** The two's complement reading: the first digit weighs -2^(n-1), the others as usual. */
  function TwosValue(s: string): int
    requires IsBinary(s)
  {
    if |s| > 0 && s[0] == '1' then ToDecimal(s) - Pow2(|s|) else ToDecimal(s)
  }

  /** A two's complement reading lies in [-2^(n-1), 2^(n-1)) and is negative exactly when the first digit is '1'. */
  lemma TwosRange(s: string)
    requires IsBinary(s) && |s| > 0
    ensures -(Pow2(|s| - 1) as int) <= TwosValue(s) < Pow2(|s| - 1)
    ensures TwosValue(s) < 0 <==> s[0] == '1'
  {
    LeadingDigit(s);
  }

  /** The weight of digit i in the loop of `convert_twos_complement`. */
  lemma TwosStep(binary: string, i: nat)
    requires IsBinary(binary) && i < |binary|
    ensures ToDecimal(binary[..i + 1]) * Pow2(|binary| - i - 1)
      == ToDecimal(binary[..i]) * Pow2(|binary| - i) + Digit(binary[i]) * Pow2(|binary| - 1 - i)
  {
    var p := Pow2(|binary| - i - 1);
    assert binary[..i + 1] == binary[..i] + [binary[i]];
    ToDecimalPush(binary[..i], binary[i]);
    assert Pow2(|binary| - i) == 2 * p;
    assert (2 * ToDecimal(binary[..i]) + Digit(binary[i])) * p == ToDecimal(binary[..i]) * (2 * p) + Digit(binary[i]) * p;
  }

  /** `convert_twos_complement`: ValueError for a non-binary string, else the two's complement reading. */
  method ConvertTwosComplement(binary: string) returns (r: Result<int, Exception>)
    ensures r == if IsBinary(binary) then Ok(TwosValue(binary)) else Err(ValueError)
  {
    if !IsBinary(binary) {
      return Err(ValueError);
    }
    var n := |binary|;
    var result := 0;
    var i := 0;
    while i < n
      invariant 0 <= i <= n
      invariant result == ToDecimal(binary[..i]) * Pow2(n - i) - (if i > 0 && binary[0] == '1' then Pow2(n) else 0)
    {
      var sign := if i == 0 then -1 else 1;
      TwosStep(binary, i);
      if i == 0 {
        assert binary[..1] == [binary[0]];
        assert Pow2(n) == 2 * Pow2(n - 1);
      }
      result := result + sign * Digit(binary[i]) * Pow2(n - 1 - i);
      i := i + 1;
    }
    assert binary[..n] == binary;
    return Ok(result);
  }

  /** `_get_binary_simple`: the digits of |decimal|, built from the last digit to the first. */
  method GetBinarySimple(decimal: int) returns (result: string)
    ensures result == BinaryDigits(if decimal < 0 then -decimal else decimal)
  {
    var bufDecimal: nat := if decimal < 0 then -decimal else decimal;
    result := "";
    while bufDecimal != 0
      invariant BinaryDigits(bufDecimal) + result == BinaryDigits(if decimal < 0 then -decimal else decimal)
    {
      result := [if bufDecimal % 2 == 1 then '1' else '0'] + result;
      bufDecimal := bufDecimal / 2;
    }
  }

  /** `value.zfill(n)`: zeros in front up to n characters. */
  function ZFill(v: string, n: int): (r: string)
    ensures |r| == if |v| >= n then |v| else n
  {
    if |v| >= n then v else Zeros(n - |v|) + v
  }

  /** The last n digits of `value.zfill(n)`: what the loop of `_binary_sum` reads. */
  function Low(v: string, n: nat): (r: string)
    requires IsBinary(v)
    ensures |r| == n && IsBinary(r)
  {
    var z := ZFill(v, n);
    z[|z| - n..]
  }

  /** Padding a short string with zeros keeps its value. */
  lemma LowOfShort(v: string, n: nat)
    requires IsBinary(v) && |v| <= n
    ensures ToDecimal(Low(v, n)) == ToDecimal(v)
  {
    assert Low(v, n) == Zeros(n - |v|) + v;
    ToDecimalAppend(Zeros(n - |v|), v);
    ZerosValue(n - |v|);
  }

  /** A string of exactly n digits is its own low part. */
  lemma LowOfExact(v: string, n: nat)
    requires IsBinary(v) && |v| == n
    ensures Low(v, n) == v
  {
  }

  /** One column of the ripple-carry addition: the new digit and carry keep the running sum exact. */
  lemma SumStep(a: string, b: string, k: nat, result: string, buffer: int, c: char, carry: int)
    requires IsBinary(a) && IsBinary(b) && IsBinary(result) && 0 < k <= |a| && |a| == |b|
    requires |result| == |a| - k && 0 <= buffer <= 1
    requires ToDecimal(result) + (if buffer == 1 then Pow2(|result|) else 0) == ToDecimal(a[k..]) + ToDecimal(b[k..])
    requires var t := Digit(a[k - 1]) + Digit(b[k - 1]) + buffer;
      c == (if t % 2 == 1 then '1' else '0') && carry == t / 2
    ensures IsBinary([c] + result) && 0 <= carry <= 1
    ensures ToDecimal([c] + result) + (if carry == 1 then Pow2(|result| + 1) else 0) == ToDecimal(a[k - 1..]) + ToDecimal(b[k - 1..])
  {
    var n := |result|;
    ColumnValue(a, k, n);
    ColumnValue(b, k, n);
    ToDecimalPrepend(c, result);
    assert Pow2(n + 1) == 2 * Pow2(n);
  }

  /** The value of the suffix from position k - 1: its first digit weighs 2^n, n digits follow. */
  lemma ColumnValue(a: string, k: nat, n: nat)
    requires IsBinary(a) && 0 < k <= |a| && n == |a| - k
    ensures ToDecimal(a[k - 1..]) == (if a[k - 1] == '1' then Pow2(n) else 0) + ToDecimal(a[k..])
  {
    assert a[k - 1..] == [a[k - 1]] + a[k..];
    ToDecimalPrepend(a[k - 1], a[k..]);
  }

  /** One pass of the loop of `_binary_sum`: column k - 1 written in front of the result, with the carry out. */
  method AddColumn(a: string, b: string, k: nat, result: string, buffer: int) returns (result': string, buffer': int)
    requires IsBinary(a) && IsBinary(b) && IsBinary(result) && 0 < k <= |a| && |a| == |b|
    requires |result| == |a| - k && 0 <= buffer <= 1
    requires ToDecimal(result) + (if buffer == 1 then Pow2(|result|) else 0) == ToDecimal(a[k..]) + ToDecimal(b[k..])
    ensures IsBinary(result') && |result'| == |result| + 1 && 0 <= buffer' <= 1
    ensures ToDecimal(result') + (if buffer' == 1 then Pow2(|result'|) else 0) == ToDecimal(a[k - 1..]) + ToDecimal(b[k - 1..])
  {
    var j := k - 1;
    var totalSum := Digit(a[j]) + Digit(b[j]) + buffer;
    var c := if totalSum % 2 == 1 then '1' else '0';
    SumStep(a, b, k, result, buffer, c, totalSum / 2);
    result' := [c] + result;
    buffer' := totalSum / 2;
  }

  /** The carry left after the last column becomes a leading '1'; the sum needs n + 1 digits exactly then. */
  lemma SumCarryOut(result: string, buffer: int, total: int)
    requires IsBinary(result) && 0 <= buffer <= 1
    requires ToDecimal(result) + (if buffer == 1 then Pow2(|result|) else 0) == total
    ensures var r := if buffer == 1 then "1" + result else result;
      && IsBinary(r) && ToDecimal(r) == total
      && |r| == if total < Pow2(|result|) then |result| else |result| + 1
  {
    ToDecimalPrepend('1', result);
    if buffer == 1 {
      assert ToDecimal("1" + result) == total;
    } else {
      assert total == ToDecimal(result);
    }
  }

  /**
   * `_binary_sum`: the ripple-carry sum of the last n digits of both (zero-filled) strings, with a
   * final carry written as an extra leading '1': n digits when the sum fits, n + 1 otherwise.
   */
  method BinarySum(value1: string, value2: string, n: nat) returns (result: string)
    requires IsBinary(value1) && IsBinary(value2)
    ensures IsBinary(result)
    ensures ToDecimal(result) == ToDecimal(Low(value1, n)) + ToDecimal(Low(value2, n))
    ensures |result| == if ToDecimal(Low(value1, n)) + ToDecimal(Low(value2, n)) < Pow2(n) then n else n + 1
  {
    var a, b := Low(value1, n), Low(value2, n);
    var total := ToDecimal(a) + ToDecimal(b);
    result := "";
    assert a[n..] == [] && b[n..] == [];
    var buffer := 0;
    var k := n;
    while k > 0
      invariant 0 <= k <= n && |a| == n && |b| == n && |result| == n - k && IsBinary(result)
      invariant 0 <= buffer <= 1
      invariant ToDecimal(result) + (if buffer == 1 then Pow2(|result|) else 0) == ToDecimal(a[k..]) + ToDecimal(b[k..])
    {
      result, buffer := AddColumn(a, b, k, result, buffer);
      k := k - 1;
    }
    assert a[0..] == a && b[0..] == b;
    SumCarryOut(result, buffer, total);
    if buffer == 1 {
      result := "1" + result;
    }
  }
}
