/**
 * `BinaryInt` of lab_1/src/digit_representation/binary_data_types.py: an integer of a given
 * width together with its sign-magnitude, ones' complement and two's complement strings, and
 * the string arithmetic on them (ripple-carry addition with overflow detection, subtraction as
 * addition of the negation, shift-and-add multiplication and long division to a binary fraction).
 * An instance is a value: its fields are set once, by the constructor, after its range assertion.
 */
module BinaryInts {
  import opened Wrappers
  import opened TruthTables
  import opened Arithmetic
  import opened BinaryConverter
  import BitFields

  /** `BinaryFloatFixed.DEFAULT_ACCURACY`: the fraction digits a quotient gets. */
  const Accuracy: nat := 5

  /** The width `BinaryInt(decimal)` gets when none is given. */
  const DefaultBits: int := 8

  datatype BinaryInt = BinaryInt(
    decimal: int,
    bitsNumber: int,
    signMagnitude: string,
    onesComplement: string,
    twosComplement: string)

  function Abs(d: int): nat
  {
    if d < 0 then -d else d
  }

  /** The constructor's assertion: -(2^(n-1) - 1) <= d <= 2^(n-1) - 1, which no n < 1 satisfies. */
  predicate InRange(d: int, n: int)
  {
    n >= 1 && Abs(d) < Pow2(n - 1)
  }

  /** The sign digit followed by the (n-1)-digit magnitude. */
  function SignMagnitude(d: int, n: int): string
    requires n >= 1
  {
    (if d >= 0 then "0" else "1") + Fixed(Abs(d), n - 1)
  }

  /** A negative number keeps its sign digit and inverts the magnitude digits. */
  function OnesComplement(d: int, n: int): string
    requires n >= 1
  {
    if d >= 0 then "0" + Fixed(Abs(d), n - 1) else "1" + Invert(Fixed(Abs(d), n - 1))
  }

  /** The n-digit string of d modulo 2^n. */
  function TwosComplement(d: int, n: int): string
    requires InRange(d, n)
  {
    Fixed(if d >= 0 then d else Pow2(n) + d, n)
  }

  /** What the constructor leaves in an instance: the three codes of its number at its width. */
  predicate Represents(x: BinaryInt)
  {
    && InRange(x.decimal, x.bitsNumber)
    && x.signMagnitude == SignMagnitude(x.decimal, x.bitsNumber)
    && x.onesComplement == OnesComplement(x.decimal, x.bitsNumber)
    && x.twosComplement == TwosComplement(x.decimal, x.bitsNumber)
  }

  /** The sign-magnitude string has n digits and `convert_sign_magnitude` reads d back from it. */
  lemma SignMagnitudeDecodes(d: int, n: int)
    requires InRange(d, n)
    ensures |SignMagnitude(d, n)| == n && ConvertSignMagnitude(SignMagnitude(d, n)) == Ok(d)
  {
    var s := SignMagnitude(d, n);
    assert s[1..] == Fixed(Abs(d), n - 1);
    FixedValue(Abs(d), n - 1);
  }

  /** The ones' complement string has n digits and `convert_ones_complement` reads d back from it. */
  lemma OnesComplementDecodes(d: int, n: int)
    requires InRange(d, n)
    ensures |OnesComplement(d, n)| == n && ConvertOnesComplement(OnesComplement(d, n)) == Ok(d)
  {
    var s := OnesComplement(d, n);
    var f := Fixed(Abs(d), n - 1);
    FixedValue(Abs(d), n - 1);
    if d < 0 {
      assert s[1..] == Invert(f);
      InvertTwice(f);
    } else {
      assert s[1..] == f;
    }
  }

  /** The two's complement string has n digits and reads back as d. */
  lemma TwosComplementDecodes(d: int, n: int)
    requires InRange(d, n)
    ensures IsBinary(TwosComplement(d, n)) && |TwosComplement(d, n)| == n
    ensures TwosValue(TwosComplement(d, n)) == d
    ensures TwosComplement(d, n)[0] == '1' <==> d < 0
  {
    var u := if d >= 0 then d else Pow2(n) + d;
    var s := TwosComplement(d, n);
    assert Pow2(n) == 2 * Pow2(n - 1);
    FixedValue(u, n);
    LeadingDigit(s);
  }

  /** A non-negative number has one code: its n-digit binary string. */
  lemma NonNegativeCodesAgree(d: int, n: int)
    requires InRange(d, n) && d >= 0
    ensures SignMagnitude(d, n) == OnesComplement(d, n) == TwosComplement(d, n) == Fixed(d, n)
  {
    var f := Fixed(d, n - 1);
    FixedValue(d, n - 1);
    ToDecimalPrepend('0', f);
    assert Pow2(n) == 2 * Pow2(n - 1);
    FixedValue(d, n);
    SameValue("0" + f, Fixed(d, n));
  }

  /** A negative number's ones' complement weighs 2^n - 1 - |d|. */
  lemma NegativeOnesValue(d: int, n: int)
    requires InRange(d, n) && d < 0
    ensures IsBinary(OnesComplement(d, n)) && ToDecimal(OnesComplement(d, n)) == Pow2(n) - 1 - Abs(d)
  {
    var w := n - 1;
    var f := Fixed(-d, w);
    assert OnesComplement(d, n) == "1" + Invert(f);
    OnesNegativeValue(f, -d, w);
    assert w + 1 == n;
  }

  /** "1" before the inversion of the (w)-digit string of v weighs 2^(w + 1) - 1 - v. */
  lemma OnesNegativeValue(f: string, v: nat, w: nat)
    requires v < Pow2(w) && f == Fixed(v, w)
    ensures IsBinary("1" + Invert(f)) && ToDecimal("1" + Invert(f)) == Pow2(w + 1) - 1 - v
  {
    FixedValue(v, w);
    OnesPrefixValue(f);
  }

  /** Adding "1" to a negative number's ones' complement gives 2^n + d, which still fits n digits. */
  lemma IncrementOnes(d: int, n: int)
    requires InRange(d, n) && d < 0
    ensures IsBinary(OnesComplement(d, n))
    ensures ToDecimal(Low(OnesComplement(d, n), n)) + ToDecimal(Low("1", n)) == Pow2(n) + d < Pow2(n)
  {
    OnesComplementDecodes(d, n);
    NegativeOnesValue(d, n);
    LowOfExact(OnesComplement(d, n), n);
    assert ToDecimal("1") == 1;
    LowOfShort("1", n);
  }

  /** An n-digit binary string worth 2^n + d is the two's complement of a negative d. */
  lemma NegativeTwos(d: int, n: int, r: string)
    requires InRange(d, n) && d < 0
    requires IsBinary(r) && |r| == n && ToDecimal(r) == Pow2(n) + d
    ensures r == TwosComplement(d, n)
  {
    FixedOf(r);
  }

  /** `_get_binary`: the digits of |decimal| padded with zeros in front to bitsNumber - 1 places. */
  method GetBinary(decimal: int, bitsNumber: int) returns (result: string)
    ensures result == Zeros(bitsNumber - |BinaryDigits(Abs(decimal))| - 1) + BinaryDigits(Abs(decimal))
    ensures InRange(decimal, bitsNumber) ==> result == Fixed(Abs(decimal), bitsNumber - 1)
  {
    var digits := GetBinarySimple(decimal);
    result := Zeros(bitsNumber - |digits| - 1) + digits;
    if InRange(decimal, bitsNumber) {
      PaddedFixed(Abs(decimal), bitsNumber - 1);
    }
  }

  /** `_get_sign_magnitude`: '0' or '1' by the sign, then `_get_binary`. */
  method GetSignMagnitude(decimal: int, bitsNumber: int) returns (result: string)
    ensures result == (if decimal >= 0 then "0" else "1") + Zeros(bitsNumber - |BinaryDigits(Abs(decimal))| - 1) + BinaryDigits(Abs(decimal))
    ensures InRange(decimal, bitsNumber) ==> result == SignMagnitude(decimal, bitsNumber)
  {
    var binary := GetBinary(decimal, bitsNumber);
    if decimal >= 0 {
      result := "0" + binary;
    } else {
      result := "1" + binary;
    }
  }

  /** `_get_ones_complement`: like sign-magnitude, with the digits inverted for a negative number. */
  method GetOnesComplement(decimal: int, bitsNumber: int) returns (result: string)
    ensures InRange(decimal, bitsNumber) ==> result == OnesComplement(decimal, bitsNumber)
    ensures decimal >= 0 ==> result == "0" + Zeros(bitsNumber - |BinaryDigits(Abs(decimal))| - 1) + BinaryDigits(Abs(decimal))
  {
    var binary := GetBinary(decimal, bitsNumber);
    if decimal >= 0 {
      result := "0" + binary;
    } else {
      result := "1" + Invert(binary);
    }
  }

  /** `_get_twos_complement`: a negative number's is its ones' complement plus one, by `_binary_sum`. */
  method GetTwosComplement(decimal: int, bitsNumber: int, onesComplement: string) returns (result: string)
    requires InRange(decimal, bitsNumber) && onesComplement == OnesComplement(decimal, bitsNumber)
    ensures result == TwosComplement(decimal, bitsNumber)
  {
    if decimal >= 0 {
      var binary := GetBinary(decimal, bitsNumber);
      result := "0" + binary;
      NonNegativeCodesAgree(decimal, bitsNumber);
      assert result == TwosComplement(decimal, bitsNumber);
    } else {
      IncrementOnes(decimal, bitsNumber);
      result := BinarySum(onesComplement, "1", bitsNumber);
      NegativeTwos(decimal, bitsNumber, result);
    }
  }

  /** `__init__` once its assertion holds: the number, its width and its three codes. */
  method Init(decimal: int, bitsNumber: int) returns (x: BinaryInt)
    requires InRange(decimal, bitsNumber)
    ensures Represents(x) && x.decimal == decimal && x.bitsNumber == bitsNumber
  {
    var signMagnitude := GetSignMagnitude(decimal, bitsNumber);
    var onesComplement := GetOnesComplement(decimal, bitsNumber);
    var twosComplement := GetTwosComplement(decimal, bitsNumber, onesComplement);
    x := BinaryInt(decimal, bitsNumber, signMagnitude, onesComplement, twosComplement);
  }

  /** `BinaryInt(decimal, bits_number=...)`: AssertionError outside the range, else the instance. */
  method NewBinaryInt(decimal: int, bitsNumber: int) returns (r: Result<BinaryInt, Exception>)
    ensures r.Err? <==> !InRange(decimal, bitsNumber)
    ensures r.Err? ==> r.error == AssertionError
    ensures r.Ok? ==> Represents(r.value) && r.value.decimal == decimal && r.value.bitsNumber == bitsNumber
  {
    if !InRange(decimal, bitsNumber) {
      return Err(AssertionError);
    }
    var x := Init(decimal, bitsNumber);
    return Ok(x);
  }

  /** The width both summands are brought to: the larger of the two. */
  function SumWidth(a: BinaryInt, b: BinaryInt): int
  {
    if a.bitsNumber < b.bitsNumber then b.bitsNumber else a.bitsNumber
  }

  /** A number's two's complement at width m read as an unsigned number: d, or 2^m + d below zero. */
  function Unsigned(d: int, m: nat): int
  {
    if d >= 0 then d else Pow2(m) + d
  }

  /** A sum outside [-2^(m-1), 2^(m-1) - 1] has no m-digit two's complement. */
  predicate Overflows(s: int, m: int)
    requires m >= 1
  {
    s < -(Pow2(m - 1) as int) || s >= Pow2(m - 1)
  }

  /** A number in range at some width is in range at every larger width. */
  lemma Widen(d: int, k: int, m: int)
    requires InRange(d, k) && k <= m
    ensures InRange(d, m)
  {
    BitFields.PowMonotone(k - 1, m - 1);
  }

  /** A summand as `__add__` uses it: two's complement digits whose zero-filled width-m reading is Unsigned(d, m). */
  lemma SummandValue(d: int, k: int, m: int, s: string)
    requires InRange(d, k) && k <= m && s == TwosComplement(d, k) && (d < 0 ==> k == m)
    ensures IsBinary(s) && |s| == k
    ensures ToDecimal(Low(s, m)) == Unsigned(d, m)
    ensures s[0] == '1' <==> d < 0
  {
    TwosComplementDecodes(d, k);
    if d >= 0 {
      BitFields.PowMonotone(k - 1, k);
      FixedValue(d, k);
      LowOfShort(s, m);
    } else {
      LowOfExact(s, m);
      FixedValue(Pow2(m) + d, m);
    }
  }

  /**
   * Summands ready for `__add__`: binary, the longer one m digits long, each a zero-filled
   * two's complement of its number at width m, with the sign digit in front.
   */
  predicate Aligned(first: string, second: string, m: int, a: int, b: int)
  {
    && IsBinary(first) && IsBinary(second) && |first| >= 1 && |second| >= 1
    && m == (if |first| < |second| then |second| else |first|)
    && InRange(a, m) && InRange(b, m)
    && ToDecimal(Low(first, m)) == Unsigned(a, m) && ToDecimal(Low(second, m)) == Unsigned(b, m)
    && (first[0] == '1' <==> a < 0) && (second[0] == '1' <==> b < 0)
  }

  /**
   * The summands of `__add__`: each operand's two's complement, where the narrower operand is
   * re-encoded at the wider width when it is negative (a non-negative one is zero-filled later).
   */
  method AlignSummands(self: BinaryInt, other: BinaryInt) returns (firstSummand: string, secondSummand: string)
    requires Represents(self) && Represents(other)
    ensures Aligned(firstSummand, secondSummand, SumWidth(self, other), self.decimal, other.decimal)
  {
    var m := SumWidth(self, other);
    Widen(self.decimal, self.bitsNumber, m);
    Widen(other.decimal, other.bitsNumber, m);
    firstSummand, secondSummand := self.twosComplement, other.twosComplement;
    if self.bitsNumber > other.bitsNumber && other.decimal < 0 {
      var minInt := ConvertTwosComplement(secondSummand);
      TwosComplementDecodes(other.decimal, other.bitsNumber);
      Widen(other.decimal, other.bitsNumber, self.bitsNumber);
      var widened := Init(minInt.value, self.bitsNumber);
      secondSummand := widened.twosComplement;
      SummandValue(self.decimal, self.bitsNumber, m, firstSummand);
      SummandValue(other.decimal, self.bitsNumber, m, secondSummand);
    } else if self.bitsNumber < other.bitsNumber && self.decimal < 0 {
      var minInt := ConvertTwosComplement(firstSummand);
      TwosComplementDecodes(self.decimal, self.bitsNumber);
      Widen(self.decimal, self.bitsNumber, other.bitsNumber);
      var widened := Init(minInt.value, other.bitsNumber);
      firstSummand := widened.twosComplement;
      SummandValue(self.decimal, other.bitsNumber, m, firstSummand);
      SummandValue(other.decimal, other.bitsNumber, m, secondSummand);
    } else {
      SummandValue(self.decimal, self.bitsNumber, m, firstSummand);
      SummandValue(other.decimal, other.bitsNumber, m, secondSummand);
    }
  }

  /**
   * Two's complement addition at width m: with u the sum of the unsigned readings and low its
   * last m digits, "equal sign digits and a different result sign digit" is exactly overflow, and
   * otherwise low read as two's complement is the sum, which fits the width of u's digits.
   */
  lemma AddArith(a: int, b: int, m: int)
    requires InRange(a, m) && InRange(b, m)
    ensures var u := Unsigned(a, m) + Unsigned(b, m);
      var low := if u < Pow2(m) then u else u - Pow2(m);
      && 0 <= u < 2 * Pow2(m)
      && (((a < 0) == (b < 0) && (a < 0) != (low >= Pow2(m - 1))) <==> Overflows(a + b, m))
      && (!Overflows(a + b, m) ==> low - (if low >= Pow2(m - 1) then Pow2(m) else 0) == a + b)
      && (!Overflows(a + b, m) ==> InRange(a + b, if u < Pow2(m) then m else m + 1))
  {
    assert Pow2(m) == 2 * Pow2(m - 1);
    assert Pow2(m + 1) == 2 * Pow2(m);
  }

  /** The last m digits of a sum of m or m + 1 digits: the sum, less 2^m when there is a carry digit. */
  lemma SumTail(s: string, m: int, u: int)
    requires m >= 1 && IsBinary(s) && ToDecimal(s) == u && u < 2 * Pow2(m)
    requires |s| == if u < Pow2(m) then m else m + 1
    ensures IsBinary(s[|s| - m..]) && |s[|s| - m..]| == m
    ensures ToDecimal(s[|s| - m..]) == if u < Pow2(m) then u else u - Pow2(m)
  {
    if |s| == m + 1 {
      assert s == [s[0]] + s[1..];
      ToDecimalPrepend(s[0], s[1..]);
    } else {
      assert s[0..] == s;
    }
  }

  /** What `__add__` reads off the sum string: the overflow test and, without overflow, the sum. */
  lemma AddOutcome(a: int, b: int, m: int, first: string, second: string, resultStr: string)
    requires InRange(a, m) && InRange(b, m)
    requires IsBinary(first) && IsBinary(second)
    requires |first| >= 1 && |second| >= 1 && (first[0] == '1' <==> a < 0) && (second[0] == '1' <==> b < 0)
    requires IsBinary(resultStr) && ToDecimal(resultStr) == Unsigned(a, m) + Unsigned(b, m)
    requires |resultStr| == CarryWidth(a, b, m)
    ensures |resultStr| >= m && IsBinary(resultStr[|resultStr| - m..])
    ensures (first[0] == second[0] && second[0] != resultStr[|resultStr| - m]) <==> Overflows(a + b, m)
    ensures !Overflows(a + b, m) ==> TwosValue(resultStr[|resultStr| - m..]) == a + b
    ensures !Overflows(a + b, m) ==> InRange(a + b, |resultStr|)
  {
    AddArith(a, b, m);
    SumTail(resultStr, m, Unsigned(a, m) + Unsigned(b, m));
    var tail := resultStr[|resultStr| - m..];
    LeadingDigit(tail);
    assert tail[0] == resultStr[|resultStr| - m];
  }

  /**
   * The part of `__add__` after the summands are aligned: their ripple-carry sum at the larger
   * length m, the overflow test on sign digits and, without overflow, the instance of the sum at
   * the length of the sum string.
   */
  method AddAligned(firstSummand: string, secondSummand: string, ghost m: int, ghost a: int, ghost b: int)
    returns (r: Result<BinaryInt, Exception>)
    requires Aligned(firstSummand, secondSummand, m, a, b)
    ensures r.Err? <==> Overflows(a + b, m)
    ensures r.Err? ==> r.error == OverflowError
    ensures r.Ok? ==> Represents(r.value) && r.value.decimal == a + b && r.value.bitsNumber == CarryWidth(a, b, m)
  {
    var resultBitsNumber := if |firstSummand| < |secondSummand| then |secondSummand| else |firstSummand|;
    var resultStr := BinarySum(firstSummand, secondSummand, resultBitsNumber);
    AddOutcome(a, b, resultBitsNumber, firstSummand, secondSummand, resultStr);
    if firstSummand[0] == secondSummand[0] && secondSummand[0] != resultStr[|resultStr| - resultBitsNumber] {
      return Err(OverflowError);
    }
    var x := FromSum(resultStr, resultBitsNumber, a + b);
    return Ok(x);
  }

  /** The end of `__add__`: the last m digits read as two's complement, at the width of the whole sum string. */
  method FromSum(resultStr: string, m: nat, ghost sum: int) returns (x: BinaryInt)
    requires |resultStr| >= m && IsBinary(resultStr[|resultStr| - m..])
    requires TwosValue(resultStr[|resultStr| - m..]) == sum && InRange(sum, |resultStr|)
    ensures Represents(x) && x.decimal == sum && x.bitsNumber == |resultStr|
  {
    var tail := resultStr[|resultStr| - m..];
    var resultInt := ConvertTwosComplement(tail);
    x := Init(resultInt.value, |resultStr|);
  }

  /**
   * `__add__`: the two's complement strings, the narrower one widened when negative, added at the
   * larger width m. OverflowError exactly when the sum has no m-digit two's complement; otherwise
   * the sum, at width m, or m + 1 when the addition carried out of the last digit.
   */
  method Add(self: BinaryInt, other: BinaryInt) returns (r: Result<BinaryInt, Exception>)
    requires Represents(self) && Represents(other)
    ensures r.Err? <==> Overflows(self.decimal + other.decimal, SumWidth(self, other))
    ensures r.Err? ==> r.error == OverflowError
    ensures r.Ok? ==> Represents(r.value) && r.value.decimal == self.decimal + other.decimal
    ensures r.Ok? ==> r.value.bitsNumber == CarryWidth(self.decimal, other.decimal, SumWidth(self, other))
  {
    var firstSummand, secondSummand := AlignSummands(self, other);
    r := AddAligned(firstSummand, secondSummand, SumWidth(self, other), self.decimal, other.decimal);
  }

  /** The width of the sum's digits: m, or m + 1 when the unsigned readings add up past m digits. */
  function CarryWidth(a: int, b: int, m: nat): int
  {
    if Unsigned(a, m) + Unsigned(b, m) < Pow2(m) then m else m + 1
  }

  /** `__sub__`: the negation of the subtrahend, at its own width, plus the minuend. */
  method Sub(self: BinaryInt, other: BinaryInt) returns (r: Result<BinaryInt, Exception>)
    requires Represents(self) && Represents(other)
    ensures r.Err? <==> Overflows(self.decimal - other.decimal, SumWidth(self, other))
    ensures r.Err? ==> r.error == OverflowError
    ensures r.Ok? ==> Represents(r.value) && r.value.decimal == self.decimal - other.decimal
    ensures r.Ok? ==> r.value.bitsNumber == CarryWidth(-other.decimal, self.decimal, SumWidth(self, other))
  {
    var negated := Init(-other.decimal, other.bitsNumber);
    r := Add(negated, self);
  }

  /**
   * Entry t of `list_of_sums` in `__mul__`: for multiplier digit t counted from the right, the
   * multiplicand shifted left t places when the digit is '1', else zeros, both of one length.
   */
  function PartialProduct(multiplicand: string, multiplier: string, t: nat): string
    requires t < |multiplier|
  {
    if multiplier[|multiplier| - 1 - t] == '1' then Zeros(|multiplier| - 1 - t) + multiplicand + Zeros(t)
    else Zeros(|multiplier| + |multiplicand| - 1)
  }

  /** A partial product has |multiplier| + |multiplicand| - 1 digits and weighs the digit times multiplicand times 2^t. */
  lemma PartialProductValue(multiplicand: string, multiplier: string, t: nat)
    requires IsBinary(multiplicand) && |multiplicand| >= 1 && t < |multiplier|
    ensures var p := PartialProduct(multiplicand, multiplier, t);
      && IsBinary(p) && |p| == |multiplier| + |multiplicand| - 1
      && ToDecimal(p) == if multiplier[|multiplier| - 1 - t] == '1' then ToDecimal(multiplicand) * Pow2(t) else 0
  {
    var L := |multiplier|;
    if multiplier[L - 1 - t] == '1' {
      ShiftedValue(multiplicand, L - 1 - t, t);
    } else {
      ZerosValue(L + |multiplicand| - 1);
    }
  }

  /** Leading zeros do not change a value; t trailing zeros multiply it by 2^t. */
  lemma ShiftedValue(s: string, lead: nat, t: nat)
    requires IsBinary(s)
    ensures IsBinary(Zeros(lead) + s + Zeros(t))
    ensures ToDecimal(Zeros(lead) + s + Zeros(t)) == ToDecimal(s) * Pow2(t)
  {
    ToDecimalAppend(Zeros(lead), s);
    ZerosValue(lead);
    assert ToDecimal(Zeros(lead) + s) == ToDecimal(s);
    ToDecimalAppend(Zeros(lead) + s, Zeros(t));
    ZerosValue(t);
  }

  /** The first loop of `__mul__`: one partial product per multiplier digit, rightmost first. */
  method PartialProducts(multiplicand: string, multiplier: string) returns (listOfSums: seq<string>)
    ensures |listOfSums| == |multiplier|
    ensures forall t | 0 <= t < |multiplier| :: listOfSums[t] == PartialProduct(multiplicand, multiplier, t)
  {
    listOfSums := [];
    var t := 0;
    while t < |multiplier|
      invariant 0 <= t <= |multiplier| && |listOfSums| == t
      invariant forall j | 0 <= j < t :: listOfSums[j] == PartialProduct(multiplicand, multiplier, j)
    {
      var product := PartialProduct(multiplicand, multiplier, t);
      listOfSums := listOfSums + [product];
      assert listOfSums[t] == product;
      t := t + 1;
    }
  }

  /**
   * The running sum of `__mul__` before entry i: the multiplicand times the last i multiplier
   * digits, which fits w digits when the multiplicand has M <= w - i.
   */
  lemma AccumulateStep(mc: nat, v: nat, i: nat, w: nat, M: nat)
    requires mc < Pow2(M) && v < Pow2(i) && M + i <= w
    ensures mc * v < Pow2(w)
  {
    MulStrict(mc, v, Pow2(M), Pow2(i));
    Pow2Add(M, i);
    BitFields.PowMonotone(M + i, w);
  }

  /** Adding the partial product of one more digit to the running sum multiplies by one more digit. */
  lemma ShiftAdd(sum: int, current: int, previous: int, mc: int, v: int, one: bool, p: int, high: int)
    requires current == (if one then mc * p else 0) && previous == mc * v
    requires sum == current + previous && high == (if one then p else 0) + v
    ensures sum == mc * high
  {
    if one {
      assert mc * (p + v) == mc * p + mc * v;
    }
  }

  /** The width a sum of m-digit strings takes: m digits, or m + 1 once it reaches 2^m. */
  function SumLength(v: int, m: nat): nat
  {
    if v < Pow2(m) then m else m + 1
  }

  /**
   * Before entry i is added: the partial product and the running sum both have w = L + M - 1
   * digits, and their values add up to the multiplicand times the last i + 1 multiplier digits.
   */
  lemma AccumulateFacts(current: string, previous: string, multiplicand: string, multiplier: string, i: nat)
    requires IsBinary(multiplicand) && IsBinary(multiplier) && |multiplicand| >= 1 && 1 <= i < |multiplier|
    requires current == PartialProduct(multiplicand, multiplier, i)
    requires IsBinary(previous)
    requires ToDecimal(previous) == ToDecimal(multiplicand) * ToDecimal(multiplier[|multiplier| - i..])
    requires |previous| == SumLength(ToDecimal(previous), |multiplier| + |multiplicand| - 1)
    ensures IsBinary(current) && |current| == |previous| == |multiplier| + |multiplicand| - 1
    ensures ToDecimal(current) + ToDecimal(previous) == ToDecimal(multiplicand) * ToDecimal(multiplier[|multiplier| - 1 - i..])
  {
    var L, M := |multiplier|, |multiplicand|;
    var w := L + M - 1;
    var mc := ToDecimal(multiplicand);
    var low, high := multiplier[L - i..], multiplier[L - 1 - i..];
    var v := ToDecimal(low);
    var digit := multiplier[L - 1 - i];
    PartialProductValue(multiplicand, multiplier, i);
    AccumulateStep(mc, v, i, w, M);
    assert high == [digit] + low && |low| == i;
    ToDecimalPrepend(digit, low);
    ShiftAdd(ToDecimal(current) + ToDecimal(previous), ToDecimal(current), ToDecimal(previous), mc, v, digit == '1', Pow2(i), ToDecimal(high));
  }

  /**
   * A running sum of `__mul__` after k multiplier digits: binary, worth the multiplicand times the
   * last k multiplier digits, and as long as SumLength makes it at L + M - 1 digits.
   */
  predicate RunningSum(s: string, multiplicand: string, multiplier: string, k: nat)
    requires IsBinary(multiplicand) && IsBinary(multiplier) && |multiplicand| >= 1 && k <= |multiplier|
  {
    && IsBinary(s)
    && ToDecimal(s) == ToDecimal(multiplicand) * ToDecimal(multiplier[|multiplier| - k..])
    && |s| == SumLength(ToDecimal(s), |multiplier| + |multiplicand| - 1)
  }

  /** Entry 0 is the running sum of the last multiplier digit alone, at w = L + M - 1 digits. */
  lemma FirstEntry(first: string, multiplicand: string, multiplier: string)
    requires IsBinary(multiplicand) && IsBinary(multiplier) && |multiplicand| >= 1 && |multiplier| >= 1
    requires first == PartialProduct(multiplicand, multiplier, 0)
    ensures RunningSum(first, multiplicand, multiplier, 1)
  {
    var L, M := |multiplier|, |multiplicand|;
    PartialProductValue(multiplicand, multiplier, 0);
    assert multiplier[L - 1..] == [multiplier[L - 1]];
    ToDecimalPrepend(multiplier[L - 1], []);
    assert ToDecimal(multiplier[L - 1..]) == Digit(multiplier[L - 1]);
    BitFields.PowMonotone(M, L + M - 1);
  }

  /** The body of the second loop of `__mul__` at entry i: `_binary_sum` of entry i and the running sum. */
  method AccumulateAt(current: string, previous: string, multiplicand: string, multiplier: string, i: nat) returns (s: string)
    requires IsBinary(multiplicand) && IsBinary(multiplier) && |multiplicand| >= 1 && 1 <= i < |multiplier|
    requires current == PartialProduct(multiplicand, multiplier, i)
    requires RunningSum(previous, multiplicand, multiplier, i)
    ensures RunningSum(s, multiplicand, multiplier, i + 1)
  {
    AccumulateFacts(current, previous, multiplicand, multiplier, i);
    var w := |current|;
    LowOfExact(current, w);
    LowOfExact(previous, w);
    s := BinarySum(current, previous, w);
  }

  /**
   * The second loop of `__mul__`: entry i becomes `_binary_sum` of itself and entry i - 1 at the
   * length of entry i. The last entry ends up as the product of multiplicand and multiplier.
   */
  method AccumulateSums(listOfSums: seq<string>, multiplicand: string, multiplier: string) returns (sums: seq<string>)
    requires IsBinary(multiplicand) && IsBinary(multiplier) && |multiplicand| >= 1 && |multiplier| >= 1
    requires |listOfSums| == |multiplier|
    requires forall t | 0 <= t < |multiplier| :: listOfSums[t] == PartialProduct(multiplicand, multiplier, t)
    ensures |sums| == |multiplier| && IsBinary(sums[|sums| - 1])
    ensures ToDecimal(sums[|sums| - 1]) == ToDecimal(multiplicand) * ToDecimal(multiplier)
    ensures |sums[|sums| - 1]| == SumLength(ToDecimal(sums[|sums| - 1]), |multiplier| + |multiplicand| - 1)
  {
    var L := |multiplier|;
    sums := listOfSums;
    FirstEntry(sums[0], multiplicand, multiplier);
    var i := 1;
    while i < |sums|
      invariant 1 <= i <= L && |sums| == L
      invariant forall j | i <= j < L :: sums[j] == listOfSums[j]
      invariant RunningSum(sums[i - 1], multiplicand, multiplier, i)
    {
      var s := AccumulateAt(sums[i], sums[i - 1], multiplicand, multiplier, i);
      sums := sums[i := s];
      i := i + 1;
    }
    assert multiplier[L - L..] == multiplier;
  }

  /** `sign_magnitude[1:].lstrip("0")` of a non-zero instance: the digits of its absolute value. */
  lemma MagnitudeDigits(x: BinaryInt)
    requires Represents(x) && x.decimal != 0
    ensures |x.signMagnitude| == x.bitsNumber >= 1
    ensures x.signMagnitude[0] == (if x.decimal < 0 then '1' else '0')
    ensures LStripZeros(x.signMagnitude[1..]) == BinaryDigits(Abs(x.decimal))
    ensures |BinaryDigits(Abs(x.decimal))| >= 1
  {
    var v, w := Abs(x.decimal), x.bitsNumber - 1;
    assert x.signMagnitude[1..] == Fixed(v, w);
    StripFixed(v, w);
    BinaryDigitsValue(v);
  }

  /** |a * b| is |a| * |b|. */
  lemma AbsMul(a: int, b: int)
    ensures Abs(a * b) == Abs(a) * Abs(b)
  {
    if a < 0 && b >= 0 {
      assert a * b == -((-a) * b);
    } else if a >= 0 && b < 0 {
      assert a * b == -(a * (-b));
    } else if a < 0 && b < 0 {
      assert a * b == (-a) * (-b);
    }
  }

  /** The product of two non-zero numbers is positive exactly when their signs agree. */
  lemma ProductSign(a: int, b: int)
    requires a != 0 && b != 0
    ensures a * b != 0 && (a * b > 0 <==> (a < 0) == (b < 0))
  {
    AbsMul(a, b);
    MulAtLeast(Abs(a), Abs(b));
  }

  /** A positive number with M digits lies in [2^(M-1), 2^M). */
  lemma DigitsBounds(v: nat, m: nat)
    requires v > 0 && m == |BinaryDigits(v)|
    ensures m >= 1 && Pow2(m - 1) <= v < Pow2(m)
  {
    BinaryDigitsValue(v);
    BinaryDigitsWidth(v, m);
    BinaryDigitsWidth(v, m - 1);
  }

  /** The product of a number in [2^(m-1), 2^m) and one in [2^(l-1), 2^l) lies in [2^(w-1), 2^(w+1)) for w = m + l - 1. */
  lemma ProductBounds(u: nat, v: nat, p: nat, m: nat, l: nat, w: nat)
    requires m >= 1 && l >= 1 && w == m + l - 1 && p == u * v
    requires Pow2(m - 1) <= u < Pow2(m) && Pow2(l - 1) <= v < Pow2(l)
    ensures Pow2(w - 1) <= p < Pow2(w + 1)
  {
    var a, b, c, d := Pow2(m - 1), Pow2(l - 1), Pow2(m), Pow2(l);
    MulMonotone(a, b, u, v);
    MulStrict(u, v, c, d);
    Pow2Add(m - 1, l - 1);
    Pow2Add(m, l);
  }

  /** A number in [2^(w-1), 2^(w+1)) has the w or w + 1 digits SumLength gives it. */
  lemma WidthBetween(p: nat, w: nat)
    requires w >= 1 && Pow2(w - 1) <= p < Pow2(w + 1)
    ensures |BinaryDigits(p)| == SumLength(p, w)
  {
    BinaryDigitsWidth(p, w - 1);
    BinaryDigitsWidth(p, w);
    BinaryDigitsWidth(p, w + 1);
  }

  /** Multiplying the magnitudes of two numbers, in either order, gives the magnitude of their product. */
  lemma MagnitudeProduct(a: int, b: int, x: nat, y: nat, p: nat)
    requires (x == Abs(a) && y == Abs(b)) || (x == Abs(b) && y == Abs(a))
    requires p == x * y
    ensures Abs(a * b) == p
  {
    AbsMul(a, b);
    if x != Abs(a) {
      assert x * y == y * x;
    }
  }

  /**
   * The magnitudes of two non-zero numbers, M and L digits long, multiply to |a * b|, which lies
   * in [2^(w-1), 2^(w+1)) for w = M + L - 1: it has w or w + 1 digits.
   */
  lemma FactorsProduct(a: int, b: int, multiplicand: string, multiplier: string, p: nat, w: nat)
    requires a != 0 && b != 0
    requires (multiplicand == BinaryDigits(Abs(a)) && multiplier == BinaryDigits(Abs(b)))
          || (multiplicand == BinaryDigits(Abs(b)) && multiplier == BinaryDigits(Abs(a)))
    requires p == ToDecimal(multiplicand) * ToDecimal(multiplier) && w + 1 == |multiplicand| + |multiplier|
    ensures Abs(a * b) == p && w >= 1 && Pow2(w - 1) <= p < Pow2(w + 1)
  {
    var m, l := |multiplicand|, |multiplier|;
    var x, y := ToDecimal(multiplicand), ToDecimal(multiplier);
    assert && ((x == Abs(a) && y == Abs(b)) || (x == Abs(b) && y == Abs(a)))
           && x > 0 && y > 0 && m == |BinaryDigits(x)| && l == |BinaryDigits(y)| by {
      BinaryDigitsValue(Abs(a));
      BinaryDigitsValue(Abs(b));
    }
    MagnitudeProduct(a, b, x, y, p);
    DigitsBounds(x, m);
    DigitsBounds(y, l);
    ProductBounds(x, y, p, m, l, w);
  }

  /** A sign digit before a magnitude string reads back, by `convert_sign_magnitude`, as the signed magnitude. */
  lemma SignedReading(sign: char, last: string, magnitude: nat, d: int)
    requires IsBinary(last) && ToDecimal(last) == magnitude && (sign == '0' || sign == '1')
    requires d == if sign == '0' then magnitude else -(magnitude as int)
    ensures ConvertSignMagnitude([sign] + last) == Ok(d)
  {
    assert ([sign] + last)[1..] == last;
  }

  /**
   * The tail of `__mul__`: the sign digit ('0' for equal signs) before the accumulated sum reads
   * back, by `convert_sign_magnitude`, as a * b, which fits the width one more than the sum's.
   */
  lemma ProductReading(a: int, b: int, multiplicand: string, multiplier: string, last: string, sign: char)
    requires a != 0 && b != 0
    requires (multiplicand == BinaryDigits(Abs(a)) && multiplier == BinaryDigits(Abs(b)))
          || (multiplicand == BinaryDigits(Abs(b)) && multiplier == BinaryDigits(Abs(a)))
    requires IsBinary(last) && ToDecimal(last) == ToDecimal(multiplicand) * ToDecimal(multiplier)
    requires |last| == SumLength(ToDecimal(last), |multiplier| + |multiplicand| - 1)
    requires sign == if (a < 0) == (b < 0) then '0' else '1'
    ensures ConvertSignMagnitude([sign] + last) == Ok(a * b)
    ensures InRange(a * b, |last| + 1) && |last| == |BinaryDigits(Abs(a * b))|
  {
    var p := ToDecimal(last);
    var w := |multiplicand| + |multiplier| - 1;
    var d := a * b;
    FactorsProduct(a, b, multiplicand, multiplier, p, w);
    ProductSign(a, b);
    WidthBetween(p, w);
    BinaryDigitsWidth(p, |last|);
    SignedReading(sign, last, p, d);
  }

  /**
   * `__mul__`: zero when either factor is zero (at the default width), otherwise shift-and-add
   * of the magnitudes with the sign digit in front. The product is exact and gets the width of
   * its digits plus one.
   */
  method Mul(self: BinaryInt, other: BinaryInt) returns (x: BinaryInt)
    requires Represents(self) && Represents(other)
    ensures Represents(x) && x.decimal == self.decimal * other.decimal
    ensures x.bitsNumber == if x.decimal == 0 then DefaultBits else |BinaryDigits(Abs(x.decimal))| + 1
  {
    if self.decimal == 0 || other.decimal == 0 {
      x := Init(0, DefaultBits);
      return;
    }
    MagnitudeDigits(self);
    MagnitudeDigits(other);
    var multiplicand, multiplier;
    if self.decimal > other.decimal {
      multiplicand, multiplier := LStripZeros(self.signMagnitude[1..]), LStripZeros(other.signMagnitude[1..]);
    } else {
      multiplicand, multiplier := LStripZeros(other.signMagnitude[1..]), LStripZeros(self.signMagnitude[1..]);
    }
    var listOfSums := PartialProducts(multiplicand, multiplier);
    var sums := AccumulateSums(listOfSums, multiplicand, multiplier);
    var last := sums[|sums| - 1];
    var sign := if self.signMagnitude[0] == other.signMagnitude[0] then '0' else '1';
    ProductReading(self.decimal, other.decimal, multiplicand, multiplier, last, sign);
    var resultInt := ConvertSignMagnitude([sign] + last);
    x := Init(resultInt.value, |last| + 1);
  }

  /** The fraction digits of a quotient with remainder r: none when r is 0, else the first Accuracy digits of r / d. */
  function FractionOf(r: nat, d: nat): string
    requires d > 0
  {
    if r == 0 then "" else Fixed(r * Pow2(Accuracy) / d, Accuracy)
  }

  /** The digits of |a| div |b| (none when it is 0), a point and the fraction digits of the remainder. */
  function QuotientDigits(q: nat, r: nat, d: nat): string
    requires d > 0
  {
    BinaryDigits(q) + "." + FractionOf(r, d)
  }

  /**
   * The string `__truediv__` gives for a / b (b != 0): "0.0" for a = 0, otherwise the sign digit
   * ('0' when a * b > 0) and the quotient digits of |a| / |b|.
   */
  function QuotientString(a: int, b: int): string
    requires b != 0
  {
    if a == 0 then "0.0"
    else (if a * b > 0 then "0" else "1") + QuotientDigits(Abs(a) / Abs(b), Abs(a) % Abs(b), Abs(b))
  }

  /** Bringing down one more digit c: the quotient doubles and gains the new digit, the remainder is what is left. */
  lemma QuotientStep(x: int, q: int, rm: int, dv: int, c: int, one: bool, rest: int)
    requires x == dv * q + rm
    requires 2 * rm + c == (if one then dv else 0) + rest
    ensures 2 * x + c == dv * (2 * q + (if one then 1 else 0)) + rest
  {
    assert dv * (2 * q + 1) == 2 * (dv * q) + dv;
  }

  /**
   * The body shared by both loops of `__truediv__`: the digit is '1' exactly when the divisor fits
   * into the remainder, which then becomes `_get_binary_simple` of the difference.
   */
  method DivisionStep(remainder: string, divisor: string) returns (digit: char, rest: string)
    requires IsBinary(remainder) && IsBinary(divisor) && ToDecimal(remainder) < 2 * ToDecimal(divisor)
    ensures IsBinary(rest) && (digit == '0' || digit == '1')
    ensures digit == '1' <==> ToDecimal(remainder) >= ToDecimal(divisor)
    ensures ToDecimal(remainder) == (if digit == '1' then ToDecimal(divisor) else 0) + ToDecimal(rest)
    ensures ToDecimal(rest) < ToDecimal(divisor)
  {
    if ToDecimal(remainder) < ToDecimal(divisor) {
      digit, rest := '0', remainder;
    } else {
      digit := '1';
      rest := GetBinarySimple(ToDecimal(remainder) - ToDecimal(divisor));
      BinaryDigitsValue(ToDecimal(remainder) - ToDecimal(divisor));
    }
  }

  /** One pass of the first loop of `__truediv__`: digit i of the dividend is brought down. */
  method IntegerDigit(dividend: string, divisor: string, i: nat, remainder: string, result: string)
    returns (remainder': string, result': string)
    requires IsBinary(dividend) && IsBinary(divisor) && i < |dividend| && |result| == i
    requires IsBinary(remainder) && IsBinary(result) && ToDecimal(remainder) < ToDecimal(divisor)
    requires ToDecimal(dividend[..i]) == ToDecimal(divisor) * ToDecimal(result) + ToDecimal(remainder)
    ensures IsBinary(remainder') && IsBinary(result') && |result'| == i + 1
    ensures ToDecimal(remainder') < ToDecimal(divisor)
    ensures ToDecimal(dividend[..i + 1]) == ToDecimal(divisor) * ToDecimal(result') + ToDecimal(remainder')
  {
    var c := dividend[i];
    assert dividend[..i + 1] == dividend[..i] + [c];
    ToDecimalPush(dividend[..i], c);
    ToDecimalPush(remainder, c);
    var digit;
    digit, remainder' := DivisionStep(remainder + [c], divisor);
    ToDecimalPush(result, digit);
    result' := result + [digit];
    QuotientStep(ToDecimal(dividend[..i]), ToDecimal(result), ToDecimal(remainder), ToDecimal(divisor),
                 Digit(c), digit == '1', ToDecimal(remainder'));
  }

  /** The first loop of `__truediv__`: schoolbook division giving one quotient digit per dividend digit. */
  method IntegerDigits(dividend: string, divisor: string) returns (remainder: string, result: string)
    requires IsBinary(dividend) && IsBinary(divisor) && ToDecimal(divisor) > 0
    ensures IsBinary(remainder) && IsBinary(result) && |result| == |dividend|
    ensures ToDecimal(result) == ToDecimal(dividend) / ToDecimal(divisor)
    ensures ToDecimal(remainder) == ToDecimal(dividend) % ToDecimal(divisor)
  {
    var dv := ToDecimal(divisor);
    remainder, result := "", "";
    var i := 0;
    while i < |dividend|
      invariant 0 <= i <= |dividend| && |result| == i
      invariant IsBinary(remainder) && IsBinary(result) && ToDecimal(remainder) < dv
      invariant ToDecimal(dividend[..i]) == dv * ToDecimal(result) + ToDecimal(remainder)
    {
      remainder, result := IntegerDigit(dividend, divisor, i, remainder, result);
      i := i + 1;
    }
    assert dividend[..i] == dividend;
    DivModUnique(ToDecimal(dividend), ToDecimal(result), ToDecimal(remainder), dv);
  }

  /** Doubling the scale: r * 2^(k+1) is twice r * 2^k. */
  lemma ScaleStep(r: int, k: nat)
    ensures r * Pow2(k + 1) == 2 * (r * Pow2(k))
  {
    var p := Pow2(k);
    assert Pow2(k + 1) == 2 * p;
    assert r * (2 * p) == 2 * (r * p);
  }

  /** One pass of the second loop of `__truediv__`: a '0' is brought down. */
  method FractionDigit(r: nat, divisor: string, k: nat, remainder: string, fraction: string)
    returns (remainder': string, fraction': string)
    requires IsBinary(divisor) && |fraction| == k
    requires IsBinary(remainder) && IsBinary(fraction) && ToDecimal(remainder) < ToDecimal(divisor)
    requires r * Pow2(k) == ToDecimal(divisor) * ToDecimal(fraction) + ToDecimal(remainder)
    ensures IsBinary(remainder') && IsBinary(fraction') && |fraction'| == k + 1
    ensures ToDecimal(remainder') < ToDecimal(divisor)
    ensures r * Pow2(k + 1) == ToDecimal(divisor) * ToDecimal(fraction') + ToDecimal(remainder')
  {
    ToDecimalPush(remainder, '0');
    var digit;
    digit, remainder' := DivisionStep(remainder + "0", divisor);
    ToDecimalPush(fraction, digit);
    fraction' := fraction + [digit];
    ScaleStep(r, k);
    QuotientStep(r * Pow2(k), ToDecimal(fraction), ToDecimal(remainder), ToDecimal(divisor), 0, digit == '1', ToDecimal(remainder'));
  }

  /** The second loop of `__truediv__`: Accuracy more digits, each bringing down a '0'. */
  method FractionLoop(remainder: string, divisor: string) returns (fraction: string, rest: string)
    requires IsBinary(remainder) && IsBinary(divisor) && ToDecimal(remainder) < ToDecimal(divisor)
    ensures IsBinary(fraction) && |fraction| == Accuracy && IsBinary(rest) && ToDecimal(rest) < ToDecimal(divisor)
    ensures ToDecimal(remainder) * Pow2(Accuracy) == ToDecimal(divisor) * ToDecimal(fraction) + ToDecimal(rest)
  {
    var r := ToDecimal(remainder);
    rest := remainder;
    fraction := "";
    var k := 0;
    while k < Accuracy
      invariant 0 <= k <= Accuracy && |fraction| == k
      invariant IsBinary(rest) && IsBinary(fraction) && ToDecimal(rest) < ToDecimal(divisor)
      invariant r * Pow2(k) == ToDecimal(divisor) * ToDecimal(fraction) + ToDecimal(rest)
    {
      rest, fraction := FractionDigit(r, divisor, k, rest, fraction);
      k := k + 1;
    }
  }

  /** The digits of the second loop are the binary fraction of remainder / divisor, cut after Accuracy digits. */
  method FractionDigits(remainder: string, divisor: string) returns (fraction: string)
    requires IsBinary(remainder) && IsBinary(divisor) && ToDecimal(remainder) < ToDecimal(divisor)
    ensures IsBinary(fraction) && |fraction| == Accuracy
    ensures ToDecimal(fraction) == ToDecimal(remainder) * Pow2(Accuracy) / ToDecimal(divisor)
  {
    var rest;
    fraction, rest := FractionLoop(remainder, divisor);
    DivModUnique(ToDecimal(remainder) * Pow2(Accuracy), ToDecimal(fraction), ToDecimal(rest), ToDecimal(divisor));
  }

  /**
   * What `result.lstrip("0")` leaves of the quotient digits (with leading zeros), the point and the
   * fraction: the point stops the strip, so the quotient's own digits remain.
   */
  lemma StrippedQuotient(intPart: string, fraction: string)
    requires IsBinary(intPart)
    ensures LStripZeros(intPart + "." + fraction) == BinaryDigits(ToDecimal(intPart)) + "." + fraction
  {
    var q := ToDecimal(intPart);
    FixedOf(intPart);
    StripFixed(q, |intPart|);
    StripBefore(intPart, "." + fraction);
    assert intPart + "." + fraction == intPart + ("." + fraction);
    assert BinaryDigits(q) + "." + fraction == BinaryDigits(q) + ("." + fraction);
  }

  /** The pieces the two loops of `__truediv__` leave, joined and stripped, are the quotient's digits. */
  lemma QuotientText(a: int, b: int, intPart: string, remainder: string, fraction: string)
    requires a != 0 && b != 0
    requires IsBinary(intPart) && ToDecimal(intPart) == Abs(a) / Abs(b)
    requires IsBinary(remainder) && ToDecimal(remainder) == Abs(a) % Abs(b)
    requires ToDecimal(remainder) != 0 ==> IsBinary(fraction) && |fraction| == Accuracy
    requires ToDecimal(remainder) != 0 ==> ToDecimal(fraction) == ToDecimal(remainder) * Pow2(Accuracy) / Abs(b)
    requires ToDecimal(remainder) == 0 ==> fraction == ""
    ensures LStripZeros(intPart + "." + fraction) == QuotientDigits(Abs(a) / Abs(b), Abs(a) % Abs(b), Abs(b))
  {
    StrippedQuotient(intPart, fraction);
    if ToDecimal(remainder) != 0 {
      FixedOf(fraction);
    }
  }

  /**
   * `__truediv__`: ZeroDivisionError for a zero divisor, "0.0" for a zero dividend, otherwise the
   * sign digit and the stripped quotient digits, a point and, when the division leaves a
   * remainder, Accuracy fraction digits. The float the source pairs with the string is left out.
   */
  method Divide(self: BinaryInt, other: BinaryInt) returns (r: Result<string, Exception>)
    ensures other.decimal == 0 ==> r == Err(ZeroDivisionError)
    ensures other.decimal != 0 ==> r == Ok(QuotientString(self.decimal, other.decimal))
  {
    if other.decimal == 0 {
      return Err(ZeroDivisionError);
    }
    if self.decimal == 0 {
      return Ok("0.0");
    }
    var sign := if self.decimal * other.decimal > 0 then "0" else "1";
    var dividend := GetBinarySimple(self.decimal);
    var divisor := GetBinarySimple(other.decimal);
    BinaryDigitsValue(Abs(self.decimal));
    BinaryDigitsValue(Abs(other.decimal));
    var remainder, result := IntegerDigits(dividend, divisor);
    var intPart := result;
    result := result + ".";
    var fraction := "";
    if ToDecimal(remainder) != 0 {
      fraction := FractionDigits(remainder, divisor);
      result := result + fraction;
    }
    assert result == intPart + "." + fraction;
    QuotientText(self.decimal, other.decimal, intPart, remainder, fraction);
    result := LStripZeros(result);
    return Ok(sign + result);
  }

  /** A fraction of the scale: r < d makes r * P / d less than P. */
  lemma ScaledBelow(r: nat, d: nat, p: nat)
    requires r < d && p > 0
    ensures r * p / d < p
  {
    var f, g := r * p / d, r * p % d;
    assert r * p == d * f + g;
    MulMonotone(r + 1, p, d, p);
    assert (r + 1) * p == r * p + p;
    if f >= p {
      MulMonotone(d, p, d, f);
    }
  }

  /**
   * Truncation: with q = x div d, r = x mod d and f = r * P div d, the value q + f / P lies within
   * 1 / P below x / d, stated without division: d * (q * P + f) <= x * P < d * (q * P + f + 1).
   */
  lemma TruncationBounds(x: nat, d: nat, p: nat)
    requires d > 0 && p > 0
    ensures var q, f := x / d, x % d * p / d;
      d * (q * p + f) <= x * p < d * (q * p + f + 1)
  {
    var q, r := x / d, x % d;
    var f, g := r * p / d, r * p % d;
    assert x == d * q + r;
    assert r * p == d * f + g;
    assert x * p == d * (q * p) + r * p by {
      assert (d * q + r) * p == (d * q) * p + r * p;
      assert (d * q) * p == d * (q * p);
    }
    assert d * (q * p + f) == d * (q * p) + d * f;
    assert d * (q * p + f + 1) == d * (q * p + f) + d;
  }

  /** The fraction digits are binary, read back as r * P div d, and are absent exactly when r is 0. */
  lemma FractionRead(r: nat, d: nat)
    requires r < d
    ensures var f := FractionOf(r, d);
      IsBinary(f) && ToDecimal(f) == r * Pow2(Accuracy) / d && (|f| == 0 <==> r == 0)
  {
    if r != 0 {
      ScaledBelow(r, d, Pow2(Accuracy));
      FixedValue(r * Pow2(Accuracy) / d, Accuracy);
    }
  }

  /**
   * The quotient digits read back: before the point the digits of x div d, after it nothing
   * exactly when d divides x, and together they are x / d cut after Accuracy binary places.
   */
  lemma QuotientReadsBack(x: nat, d: nat)
    requires d > 0
    ensures var s, k := QuotientDigits(x / d, x % d, d), |BinaryDigits(x / d)|;
      && k < |s| && s[k] == '.' && IsBinary(s[..k]) && IsBinary(s[k + 1..])
      && ToDecimal(s[..k]) == x / d
      && (|s| == k + 1 <==> x % d == 0)
      && d * (ToDecimal(s[..k]) * Pow2(Accuracy) + ToDecimal(s[k + 1..])) <= x * Pow2(Accuracy)
      && x * Pow2(Accuracy) < d * (ToDecimal(s[..k]) * Pow2(Accuracy) + ToDecimal(s[k + 1..]) + 1)
  {
    var q, r := x / d, x % d;
    var digits, fraction := BinaryDigits(q), FractionOf(r, d);
    var s := QuotientDigits(q, r, d);
    assert s[..|digits|] == digits && s[|digits| + 1..] == fraction;
    BinaryDigitsValue(q);
    FractionRead(r, d);
    TruncationBounds(x, d, Pow2(Accuracy));
  }

  /** 11 / 12: nothing before the point survives the strip; 0.1110100... is cut after five places. */
  lemma ElevenByTwelve()
    ensures QuotientString(11, 12) == "0.11101"
  {
    assert BinaryDigits(0) == "";
    assert 11 % 12 * Pow2(Accuracy) / 12 == 29;
    assert Fixed(29, 5) == "11101" by {
      assert Bits(29, 5) == [1, 1, 1, 0, 1];
    }
  }

  /** 124 / 4 divides exactly: the quotient digits and a bare point. */
  lemma ExactQuotient()
    ensures QuotientString(124, 4) == "011111."
  {
    assert BinaryDigits(31) == "11111";
  }

  /** 12 / -4: the signs differ, so the sign digit is '1'. */
  lemma NegativeQuotient()
    ensures QuotientString(12, -4) == "111."
  {
    assert BinaryDigits(3) == "11";
  }

  /** A zero dividend gives "0.0" whatever the divisor. */
  lemma ZeroDividend(b: int)
    requires b != 0
    ensures QuotientString(0, b) == "0.0"
  {
  }
}
