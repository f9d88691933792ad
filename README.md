# University logic labs, modelled in Dafny

This project models the computational core of a set of university labs on discrete logic and
data structures, and proves what that core promises. It covers:

- **Integer binary codes** (lab_1), `BinaryConverter` and `BinaryInt`:
  - sign-magnitude, ones' and two's complement strings of an integer of a given width, and
    their decoders;
  - ripple-carry string addition with overflow detection, and subtraction as addition of the
    negation;
  - shift-and-add multiplication;
  - long division to a binary string with five fraction digits.
  (`binary_converter.dfy`, `binary_int.dfy`)
- **Truth tables** (lab_3, lab_5 and lab_2):
  - rows enumerated in binary order, first variable most significant;
  - the PDNF/PCNF index lists, the numeric and index forms and the PDNF/PCNF strings;
  - the grouping of constituents by their count of ones.
  (`truth_table.dfy`)
- **The minimiser** (lab_3 `corno`):
  - trit vectors (0, 1, `*`), one-bit differences, merging, and consensus merging round by
    round until nothing merges (`implicants.dfy`, `ordered.dfy`, `rounds.dfy`, `merging.dfy`,
    `minimizer.dfy`);
  - the implicant chart and its essential rows (`chart.dfy`);
  - redundancy elimination (`minimization.dfy`);
  - the Karnaugh map: at most five variables, the `x ^ (x >> 1)` row and column orders, all
    3^n candidate groups, a greedy cover and pruning (`karnaugh.dfy`, `karnaugh_cover.dfy`),
    and the table of `a & b` followed through to "(a&b)" and "(b)&(a)" (`karnaugh_examples.dfy`);
  - the older `computational.py` variant (`legacy_minimizer.dfy`, and the legacy members of
    `karnaugh_cover.dfy`).
- **The formula front end** (lab_3 lexer, lab_2 parser and nodes):
  - a lexer object with a position and a variable set (`language.dfy`);
  - a recursive-descent parser object with a current token (`grammar.dfy`), with a
    print-then-parse round trip (`grammar_roundtrip.dfy`);
  - the `evaluate` and `to_python` node semantics (`evaluation.dfy`, `nodes.dfy`).
- **An AVL tree and a chained hash table** (lab_6):
  - rotations, insertion, deletion, search and the minimum node, with BST order, height
    bookkeeping and balance proved (`avl_tree.dfy`, `avl_order.dfy`, `avl_search.dfy`,
    `key_order.dfy`);
  - a hash table object whose buckets are blank or an AVL tree of entries (`hash_table.dfy`).
- **The diagonal bit matrix** (lab_7): a class over a square 0/1 matrix with rotated words and
  diagonals, the four logic operations, field addition and a flag-based interval search
  (`diagonal_matrix.dfy`, `bit_fields.dfy`).

Shared helpers live in `arithmetic.dfy`, `lists.dfy`, `text.dfy` and `wrappers.dfy`.

How the Python is represented:

- Python exceptions become the error side of a `Result` (`wrappers.dfy`).
- Python lists become sequences.
- Dictionaries that keep insertion order become association lists of key and list.
- Objects whose fields the source updates become classes whose methods modify them.
- Loops become methods with loops, proved against a specification function; the properties
  are then proved about that function.

## Model

| member | source | states |
|---|---|---|
| BinaryConverter.ToDecimalAppend | lab_1/src/digit_representation/binary_data_types.py:2-4 | `to_decimal` of a concatenation is the value of the front times 2^(length of the back) plus the value of the back |
| BinaryConverter.LeadingDigit | lab_1/src/digit_representation/binary_data_types.py:2-4 | a binary string starts with '1' exactly when its value is at least 2^(length - 1) |
| BinaryConverter.FixedValue | lab_1/src/digit_representation/binary_data_types.py:2-4 | the w-digit string of v < 2^w reads back as v |
| BinaryConverter.FixedOf | lab_1/src/digit_representation/binary_data_types.py:2-4 | every binary string is the fixed-width string of its own value (the other half of the round trip) |
| BinaryConverter.SameValue | lab_1/src/digit_representation/binary_data_types.py:2-4 | two binary strings of one length with one value are equal |
| BinaryConverter.ZerosPrefix | lab_1/src/digit_representation/binary_data_types.py:2-4 | leading zeros do not change a value |
| BinaryConverter.TwosRange | lab_1/src/digit_representation/binary_data_types.py:6-13 | the two's complement reading of n digits lies in [-2^(n-1), 2^(n-1)) and is negative exactly when the first digit is '1' |
| BinaryConverter.ConvertTwosComplement | lab_1/src/digit_representation/binary_data_types.py:6-13 | ValueError for a non-binary string; otherwise the loop's sum is minus the first digit times 2^(n-1) plus the other weighted digits |
| BinaryConverter.ConvertOnesComplement | lab_1/src/digit_representation/binary_data_types.py:15-25 | ValueError for a non-binary string, IndexError for the empty one; otherwise a value in (-2^(n-1), 2^(n-1)) that is negative only with sign digit '1' and never positive with it |
| BinaryConverter.ConvertSignMagnitude | lab_1/src/digit_representation/binary_data_types.py:27-32 | ValueError for a non-binary string, IndexError for the empty one; otherwise a value in (-2^(n-1), 2^(n-1)) whose sign follows the sign digit |
| BinaryConverter.GetBinarySimple | lab_1/src/digit_representation/binary_data_types.py:75-82 | the loop builds the binary digits of abs(d) without leading zeros, "" for 0 |
| BinaryConverter.BinaryDigitsValue | lab_1/src/digit_representation/binary_data_types.py:75-82 | those digits read back as the number, are empty exactly for 0 and otherwise start with '1' |
| BinaryConverter.BinaryDigitsWidth | lab_1/src/digit_representation/binary_data_types.py:75-82 | v has at most w digits exactly when v < 2^w |
| BinaryConverter.LStripZeros | lab_1/src/digit_representation/binary_data_types.py:159-165 | `lstrip("0")` leaves no leading '0' and never lengthens the string |
| BinaryConverter.StripFixed | lab_1/src/digit_representation/binary_data_types.py:159-165 | stripping a fixed-width string of v leaves exactly the binary digits of v |
| BinaryConverter.StripBefore | lab_1/src/digit_representation/binary_data_types.py:234 | the strip stops at the first character that is not '0' |
| BinaryConverter.PaddedFixed | lab_1/src/digit_representation/binary_data_types.py:84-90 | zeros before the digits of v, up to width w, give the w-digit string of v |
| BinaryConverter.InvertValue | lab_1/src/digit_representation/binary_data_types.py:20-24 | a string and its digit-wise inversion add up to 2^n - 1 |
| BinaryConverter.InvertTwice | lab_1/src/digit_representation/binary_data_types.py:20-24 | inverting twice gives the string back |
| BinaryConverter.OnesPrefixValue | lab_1/src/digit_representation/binary_data_types.py:102-104 | "1" before the inversion of f weighs 2^(|f|+1) - 1 - value(f) |
| BinaryConverter.LowOfShort | lab_1/src/digit_representation/binary_data_types.py:120-121 | the last n digits of a string zero-filled to n keep the value of a string of at most n digits |
| BinaryConverter.LowOfExact | lab_1/src/digit_representation/binary_data_types.py:120-121 | zero-filling a string of exactly n digits and taking its last n digits changes nothing |
| BinaryConverter.AddColumn | lab_1/src/digit_representation/binary_data_types.py:121-124 | one column of the loop keeps the invariant "result plus the carry's weight equals the value of the columns summed so far" |
| BinaryConverter.SumCarryOut | lab_1/src/digit_representation/binary_data_types.py:125-127 | the final carry becomes a leading '1', so the result is n digits, or n + 1 exactly when the sum reaches 2^n |
| BinaryConverter.BinarySum | lab_1/src/digit_representation/binary_data_types.py:116-127 | `_binary_sum` is the sum of the last n digits of both zero-filled operands, n digits long, or n + 1 exactly when the sum reaches 2^n |
| BinaryInts.SignMagnitudeDecodes | lab_1/src/digit_representation/binary_data_types.py:92-96 | the sign-magnitude string of an in-range d has n digits and `convert_sign_magnitude` reads d back |
| BinaryInts.OnesComplementDecodes | lab_1/src/digit_representation/binary_data_types.py:98-104 | the ones' complement string has n digits and `convert_ones_complement` reads d back |
| BinaryInts.TwosComplementDecodes | lab_1/src/digit_representation/binary_data_types.py:106-114 | the two's complement string has n digits, `convert_twos_complement` reads d back, and its first digit is '1' exactly for negative d |
| BinaryInts.NonNegativeCodesAgree | lab_1/src/digit_representation/binary_data_types.py:92-108 | for d >= 0 the three codes are one string, the n-digit binary of d |
| BinaryInts.NegativeOnesValue | lab_1/src/digit_representation/binary_data_types.py:98-104 | a negative number's ones' complement weighs 2^n - 1 - abs(d) |
| BinaryInts.IncrementOnes | lab_1/src/digit_representation/binary_data_types.py:110-114 | adding "1" to a negative number's ones' complement sums to 2^n + d, below 2^n, so no carry digit appears |
| BinaryInts.NegativeTwos | lab_1/src/digit_representation/binary_data_types.py:110-114 | an n-digit string worth 2^n + d is the two's complement of a negative d |
| BinaryInts.GetBinary | lab_1/src/digit_representation/binary_data_types.py:84-90 | the loop's digits of abs(d), zero-filled to n - 1 digits; for an in-range d, the (n-1)-digit binary of abs(d) |
| BinaryInts.GetSignMagnitude | lab_1/src/digit_representation/binary_data_types.py:92-96 | the sign digit before `_get_binary`; for an in-range d, the sign-magnitude code |
| BinaryInts.GetOnesComplement | lab_1/src/digit_representation/binary_data_types.py:98-104 | '0' before `_get_binary` for d >= 0; for an in-range d, the ones' complement code |
| BinaryInts.GetTwosComplement | lab_1/src/digit_representation/binary_data_types.py:106-114 | for d >= 0, '0' before `_get_binary`; for d < 0, the ones' complement plus "1" at width n; in both cases the two's complement code |
| BinaryInts.Init | lab_1/src/digit_representation/binary_data_types.py:64-73 | an in-range d gives an instance holding d, n and the three codes of d |
| BinaryInts.NewBinaryInt | lab_1/src/digit_representation/binary_data_types.py:64-73 | AssertionError exactly when d is outside [-(2^(n-1) - 1), 2^(n-1) - 1]; otherwise the instance of d at width n |
| BinaryInts.Widen | lab_1/src/digit_representation/binary_data_types.py:131-140 | a number in range at a width is in range at every larger width, so re-encoding the narrower negative operand succeeds |
| BinaryInts.SummandValue | lab_1/src/digit_representation/binary_data_types.py:130-141 | a summand zero-filled to the larger width m reads as d for d >= 0 and as 2^m + d for d < 0, and its first digit is the sign |
| BinaryInts.AlignSummands | lab_1/src/digit_representation/binary_data_types.py:130-141 | the two summands are binary, the longer has m digits, each zero-filled to m reads as its number modulo 2^m, and each starts with its sign |
| BinaryInts.AddArith | lab_1/src/digit_representation/binary_data_types.py:145-150 | at width m, "equal sign digits and a different result sign digit" holds exactly on overflow; otherwise the last m digits read as a + b |
| BinaryInts.SumTail | lab_1/src/digit_representation/binary_data_types.py:147-148 | the last m digits of the sum string are the sum, less 2^m when there is a carry digit |
| BinaryInts.AddOutcome | lab_1/src/digit_representation/binary_data_types.py:141-150 | the overflow test on sign digits is exactly overflow; otherwise the last m digits decode to a + b, which fits the width of the sum string |
| BinaryInts.AddAligned | lab_1/src/digit_representation/binary_data_types.py:141-150 | OverflowError exactly on overflow at width m; otherwise an instance of a + b at the width of the sum string |
| BinaryInts.FromSum | lab_1/src/digit_representation/binary_data_types.py:147-150 | the last m digits, decoded, give an instance of the sum at the length of the whole sum string |
| BinaryInts.Add | lab_1/src/digit_representation/binary_data_types.py:129-150 | `+`: OverflowError exactly when a + b has no two's complement at the larger width m; otherwise an instance of a + b at width m, or m + 1 when the addition carried out |
| BinaryInts.Sub | lab_1/src/digit_representation/binary_data_types.py:152-153 | `-`: OverflowError exactly when a - b overflows the larger width; otherwise an instance of a - b whose width is the one `__add__` gives for -b plus a (the larger width, widened by one when the carry is set) |
| BinaryInts.PartialProductValue | lab_1/src/digit_representation/binary_data_types.py:167-174 | entry t of the first loop has M + L - 1 digits and is worth the multiplicand times 2^t when multiplier digit t from the right is '1', else 0 |
| BinaryInts.ShiftedValue | lab_1/src/digit_representation/binary_data_types.py:171 | leading zeros leave a value unchanged, and t trailing zeros multiply it by 2^t |
| BinaryInts.PartialProducts | lab_1/src/digit_representation/binary_data_types.py:166-174 | the first loop yields one entry per multiplier digit, each equal to that digit's partial product |
| BinaryInts.AccumulateFacts | lab_1/src/digit_representation/binary_data_types.py:175-180 | entry i plus the running sum of the first i digits is the multiplicand times the last i + 1 multiplier digits |
| BinaryInts.FirstEntry | lab_1/src/digit_representation/binary_data_types.py:166-174 | entry 0 is already the running sum for the last multiplier digit |
| BinaryInts.AccumulateAt | lab_1/src/digit_representation/binary_data_types.py:176-180 | one `_binary_sum` step extends the running sum by one multiplier digit |
| BinaryInts.AccumulateSums | lab_1/src/digit_representation/binary_data_types.py:175-180 | after the second loop the last entry is the binary of multiplicand times multiplier, with M + L - 1 digits or one more |
| BinaryInts.MagnitudeDigits | lab_1/src/digit_representation/binary_data_types.py:158-165 | the stripped magnitude of a non-zero instance is the binary of abs(d), and its sign digit is '1' exactly for negative d |
| BinaryInts.ProductSign | lab_1/src/digit_representation/binary_data_types.py:182-185 | a product of non-zero numbers is positive exactly when their signs agree |
| BinaryInts.FactorsProduct | lab_1/src/digit_representation/binary_data_types.py:158-180 | the two magnitudes, whichever factor is the multiplicand, multiply to abs(a * b), which has M + L - 1 or M + L digits |
| BinaryInts.SignedReading | lab_1/src/digit_representation/binary_data_types.py:182-186 | a sign digit before a magnitude string reads back as the signed magnitude |
| BinaryInts.ProductReading | lab_1/src/digit_representation/binary_data_types.py:182-187 | the product string decodes to a * b, which is in range at the width `len(list_of_sums[-1]) + 1` |
| BinaryInts.Mul | lab_1/src/digit_representation/binary_data_types.py:155-187 | `*`: an instance of a * b, at the default width 8 when either factor is 0, else at the width of abs(a * b)'s digits plus one |
| BinaryInts.DivisionStep | lab_1/src/digit_representation/binary_data_types.py:205-216 | one comparison step: digit '1' exactly when the remainder reaches the divisor; the new remainder is the old one less the digit times the divisor, and is below the divisor |
| BinaryInts.IntegerDigit | lab_1/src/digit_representation/binary_data_types.py:203-216 | one pass of the first loop keeps "dividend prefix = divisor * result + remainder, remainder < divisor" |
| BinaryInts.IntegerDigits | lab_1/src/digit_representation/binary_data_types.py:203-216 | the first loop gives, digit for digit, the quotient and the remainder of the two magnitudes |
| BinaryInts.FractionDigit | lab_1/src/digit_representation/binary_data_types.py:220-233 | one pass of the second loop keeps "r * 2^k = divisor * fraction + remainder" |
| BinaryInts.FractionLoop | lab_1/src/digit_representation/binary_data_types.py:219-233 | after five passes: r * 2^5 = divisor * fraction + rest, with rest < divisor |
| BinaryInts.FractionDigits | lab_1/src/digit_representation/binary_data_types.py:219-233 | the five fraction digits are r * 2^5 div divisor |
| BinaryInts.StrippedQuotient | lab_1/src/digit_representation/binary_data_types.py:217-234 | `lstrip("0")` of integer digits, point and fraction leaves the quotient's own digits, the point and the fraction |
| BinaryInts.QuotientText | lab_1/src/digit_representation/binary_data_types.py:217-234 | the stripped string is the digits of abs(a) div abs(b), a point, and the fraction digits of the remainder (none when it is 0) |
| BinaryInts.Divide | lab_1/src/digit_representation/binary_data_types.py:189-237 | `/`: ZeroDivisionError for a zero divisor; "0.0" for a zero dividend; otherwise the sign digit ('0' when a * b > 0) before the stripped quotient string |
| BinaryInts.FractionRead | lab_1/src/digit_representation/binary_data_types.py:219-233 | the fraction digits are binary, worth r * 2^5 div d, and absent exactly when the remainder is 0 |
| BinaryInts.QuotientReadsBack | lab_1/src/digit_representation/binary_data_types.py:189-237 | the quotient string reads back: before the point x div d; nothing after it exactly when d divides x; together x / d cut after five binary places |
| BinaryInts.ElevenByTwelve | lab_1/src/tests/test_binary_int.py:104-114 | 11 / 12 gives "0.11101" |
| BinaryInts.ExactQuotient | lab_1/src/tests/test_binary_int.py:104-114 | 124 / 4 gives "011111." |
| BinaryInts.NegativeQuotient | lab_1/src/tests/test_binary_int.py:104-114 | 12 / -4 gives "111." |
| BinaryInts.ZeroDividend | lab_1/src/digit_representation/binary_data_types.py:192-195 | 0 / b gives "0.0" for every non-zero b |
| TruthTables.BitsValue | lab_3/src/pnf_contructor/truth_table.py:20-21 | the assignment of row i, first variable most significant, reads back as i |
| TruthTables.ValueBits | lab_3/src/pnf_contructor/truth_table.py:20-21 | every assignment is the assignment of row Value(b), so the rows enumerate all assignments |
| TruthTables.RowsEnumerateAssignments | lab_3/src/pnf_contructor/truth_table.py:20-21 | row i carries assignment b exactly when i is the value of b |
| TruthTables.GeneratedRow | lab_3/src/pnf_contructor/truth_table.py:21-30 | row i is the n bits of i followed by `int(result)` of that assignment |
| TruthTables.GeneratedTable | lab_3/src/pnf_contructor/truth_table.py:19-31 | `_generate_table` yields 2^n rows, row i being the generated row of i |
| TruthTables.GeneratedTableWellFormed | lab_3/src/pnf_contructor/truth_table.py:19-31 | the generated table has 2^n rows of n bits and a value, row j starting with the bits of j |
| TruthTables.IndicesSpec | lab_3/src/pnf_contructor/truth_table.py:25-28 | each index list is strictly ascending and holds exactly the rows whose value is 1 (PDNF) or not 1 (PCNF) |
| TruthTables.IndicesPartition | lab_3/src/pnf_contructor/truth_table.py:25-28 | every row index is in exactly one of the two lists, and in the PDNF list exactly when its value is 1 |
| TruthTables.IndicesSnoc | lab_5/logic/table_truth/truth_table.py:30-36 | appending a row appends its index to exactly the list its value selects |
| TruthTables.TruthTable.FromFunction | lab_3/src/pnf_contructor/truth_table.py:9-31 | the formula constructor stores the generated table and the two index lists of its values |
| TruthTables.TruthTable.FromRows | lab_5/logic/table_truth/truth_table.py:24-36 | the table constructor keeps the rows as given, without a width check, and files index i under PDNF exactly when `row[-1] == 1` |
| TruthTables.NumForm | lab_3/src/pnf_contructor/truth_table.py:37-43 | the numeric form is "(" then the indices then " \|" or " &" |
| TruthTables.IndexForm | lab_3/src/pnf_contructor/truth_table.py:45-49 | `get_index_form` has 2^n characters, '1' exactly at the PDNF indices |
| TruthTables.Polarities | lab_3/src/pnf_contructor/truth_table.py:51-71 | literal polarities come from the row contents `table[j][i]`, one per variable, not from the index j |
| TruthTables.Pdnf | lab_3/src/pnf_contructor/truth_table.py:62-71 | `get_pdnf` is empty exactly when there are no PDNF rows |
| TruthTables.Pcnf | lab_3/src/pnf_contructor/truth_table.py:51-60 | `get_pcnf` is empty exactly when there are no PCNF rows |
| TruthTables.RowMatch | lab_3/src/pnf_contructor/truth_table.py:19-31 | in a generated table, row j agrees with assignment b on every variable exactly when j is the value of b |
| TruthTables.DnfOfTable | lab_3/src/pnf_contructor/truth_table.py:62-71 | the PDNF holds at an assignment exactly when the table's row for it has value 1 |
| TruthTables.DnfOfTableIf | lab_3/src/pnf_contructor/truth_table.py:62-71 | a row with value 1 makes its own minterm, and so the PDNF, true |
| TruthTables.DnfOfTableOnlyIf | lab_3/src/pnf_contructor/truth_table.py:62-71 | a true minterm names the assignment's own row, whose value is 1 |
| TruthTables.CnfOfTable | lab_3/src/pnf_contructor/truth_table.py:51-60 | the PCNF holds at an assignment exactly when the table's row for it has value 1 |
| TruthTables.CnfOfTableFalse | lab_3/src/pnf_contructor/truth_table.py:51-60 | a row whose value is not 1 makes its own maxterm, and so the PCNF, false |
| TruthTables.CnfOfTableFails | lab_3/src/pnf_contructor/truth_table.py:51-60 | a false maxterm names the assignment's own row, whose value is not 1 |
| TruthTables.PdnfDenotesFunction | lab_3/src/pnf_contructor/truth_table.py:19-31 | the PDNF of a generated table denotes the tabulated function |
| TruthTables.PcnfDenotesFunction | lab_3/src/pnf_contructor/truth_table.py:19-31 | the PCNF of a generated table denotes the tabulated function |
| TruthTables.Constituents | lab_3/src/pnf_contructor/truth_table.py:87-91 | `get_*_constituents` are the listed rows without the result column, in index order |
| TruthTables.WithOnesMembers | lab_3/src/pnf_contructor/truth_table.py:73-78 | the constituents filed under w are exactly those with w ones |
| TruthTables.GroupStep | lab_3/src/pnf_contructor/truth_table.py:75-77 | one `setdefault(...).append(row)` keeps the grouping exact for the constituents seen so far |
| TruthTables.GroupedByOnesSpec | lab_3/src/pnf_contructor/truth_table.py:73-85 | the grouping has distinct keys, key w holds the constituents with w ones in their order, there is a key exactly for each count that occurs, and the groups together are a permutation of the constituents |
| TruthTables.GroupByOnes | lab_3/src/pnf_contructor/truth_table.py:73-85 | the `group_pdnf` / `group_pcnf` loop builds that grouping of the listed rows' constituents |
| TruthTables.BoolIndicesSnoc | lab_2/src/table_truth_generator/truth_table.py:26-29 | appending a boolean row appends its index to the list its raw result selects |
| TruthTables.BoolTruthTable.FromFunction | lab_2/src/table_truth_generator/truth_table.py:9-32 | the lab_2 constructor stores 2^n boolean rows in binary order, each followed by the raw result, and the two index lists |
| TruthTables.BoolRowAsInts | lab_2/src/table_truth_generator/truth_table.py:20-32 | a boolean row read as 0/1 is the integer table's row of the same function |
| TruthTables.BoolIndicesAsInts | lab_2/src/table_truth_generator/truth_table.py:26-29 | the boolean index lists are the integer index lists of the table read as 0/1 |
| TruthTables.BoolTableAsInts | lab_2/src/table_truth_generator/truth_table.py:20-32 | the lab_2 table is the lab_3 table of the same function, so every property above carries over |
| TruthTableExamples.XAndYTable | lab_2/tests/test_truth_table.py:15-25 | for x & y the table is [[F,F,F],[F,T,F],[T,F,F],[T,T,T]] |
| TruthTableExamples.XAndYIndices | lab_2/tests/test_truth_table.py:38-43 | for x & y the PDNF indices are [3] and the PCNF indices [0, 1, 2] |
| TruthTableExamples.XAndYNumForms | lab_2/tests/test_truth_table.py:45-46 | the numeric forms are "(3) \|" and "(0, 1, 2) &" |
| TruthTableExamples.XAndYIndexForm | lab_2/tests/test_truth_table.py:49-53 | the index form of x & y (PDNF [3]) is "0001" |
| TruthTableExamples.XAndYPolarities | lab_2/src/table_truth_generator/truth_table.py:53-67 | the PCNF rows of x & y carry polarities FF, FT, TF and the PDNF row TT |
| TruthTableExamples.XAndYCanonicalForms | lab_2/tests/test_truth_table.py:55-66 | the PCNF is "(x\|y)&(x\|!y)&(!x\|y)" and the PDNF "(x&y)" |
| Implicants.IsOneBitDifferent | lab_3/src/corno/minimizer.py:98-107 | the scan returns the one position where the vectors differ, or -1 |
| Implicants.OneBitDifferenceSpec | lab_3/src/corno/minimizer.py:98-107 | the result is k exactly when k is the only differing position, and -1 exactly when the vectors are equal or differ in two or more places |
| Implicants.DiffSetFacts | lab_3/src/corno/minimizer.py:98-107 | the count of differing positions is the size of the set of them; the last one found is in that set |
| Implicants.CanMergeSpec | lab_3/src/corno/minimizer.py:75-87 | `can_merge` holds exactly when the vectors differ in one position and carry '*' in the same places |
| Implicants.CanMergeSymmetric | lab_3/src/corno/minimizer.py:75-116 | `can_merge` does not depend on the order of its arguments |
| Implicants.SameStarsStarCount | lab_3/src/corno/minimizer.py:110-116 | vectors with stars in the same places have the same number of stars |
| Implicants.MergeablePosition | lab_3/src/corno/minimizer.py:90-95 | for a mergeable pair the differing position holds 0 and 1, neither a star, and every other position agrees |
| Implicants.CanMergePopcount | lab_3/src/corno/minimizer.py:39-42 | a mergeable pair lies in neighbouring groups: their counts of ones differ by one |
| Implicants.MergeCover | lab_3/src/corno/minimizer.py:90-95 | the merged vector covers exactly the constituents that one of the pair covers |
| Implicants.MergeCounts | lab_3/src/corno/minimizer.py:49-56 | the merged vector keeps the lower count of ones, so it is filed under `group_num`, and has one more star |
| Ordered.Append | lab_3/src/corno/minimizer.py:53-56 | `setdefault(key, []).append(v)` adds v at the end of key's list, creates the key when missing and leaves other keys alone |
| Ordered.FlattenAppend | lab_3/src/corno/minimizer.py:72 | after an append, the flattened values are the old ones plus v, as a multiset |
| Ordered.FlattenMembership | lab_3/src/corno/minimizer.py:72 | a value is in the flattened dictionary exactly when it is in some key's list |
| Ordered.SortedKeys | lab_3/src/corno/minimizer.py:39 | `sorted(pnf_group)` is strictly ascending and holds exactly the dictionary's keys |
| Ordered.InsertSorted | lab_3/src/corno/minimizer.py:39 | inserting into a strictly ascending list keeps it ascending and adds exactly x |
| Merging.PairStepEffect | lab_3/src/corno/minimizer.py:43-59 | one pair adds its merge under the key and marks both as used exactly when `can_merge` holds, and changes nothing otherwise |
| Merging.ScanSecondEffect | lab_3/src/corno/minimizer.py:42-59 | the inner loop adds the merges of a with every mergeable second, and marks exactly those pairs as used |
| Merging.ScanFirstEffect | lab_3/src/corno/minimizer.py:41-59 | the two nested loops add the merges of every mergeable (first, second) pair |
| Merging.ScanKeysEffect | lab_3/src/corno/minimizer.py:39-59 | the pass over the sorted keys leaves in the result exactly the merges of groups k and k + 1 under k, and marks exactly the merged vectors as used |
| Merging.KeepUnusedMembers | lab_3/src/corno/minimizer.py:63-68 | the second loop adds exactly the vectors of the old groups that no merge used, under their old key |
| Merging.RoundCoverage | lab_3/src/corno/minimizer.py:34-70 | one round covers exactly the constituents the groups covered before it |
| Merging.RoundAdvances | lab_3/src/corno/minimizer.py:34-70 | a round that merged something gives groups whose every vector has one more star, so at most n rounds change anything |
| Merging.RoundStable | lab_3/src/corno/minimizer.py:34-70 | a round that merged nothing returns the same groups, and no two neighbouring groups hold a mergeable pair |
| Merging.FixpointShape | lab_3/src/corno/minimizer.py:28-72 | the final groups have distinct keys, and each vector has n positions and as many ones as its key |
| Merging.FixpointCoverage | lab_3/src/corno/minimizer.py:28-72 | the final implicants cover exactly the constituents the first groups covered |
| Merging.FixpointPrime | lab_3/src/corno/minimizer.py:28-72 | when the loop ends no neighbouring groups hold a mergeable pair |
| Minimizer.ScanSeconds | lab_3/src/corno/minimizer.py:42-59 | the inner loop computes the inner-scan specification |
| Minimizer.ScanFirsts | lab_3/src/corno/minimizer.py:41-59 | the loop over firsts computes the nested-scan specification |
| Minimizer.ScanGroups | lab_3/src/corno/minimizer.py:39-59 | the loop over sorted keys computes the whole merging pass |
| Minimizer.KeepGroup | lab_3/src/corno/minimizer.py:64-68 | the loop over one group keeps its unused vectors |
| Minimizer.KeepGroups | lab_3/src/corno/minimizer.py:63-68 | the loop over all groups keeps every unused vector |
| Minimizer.MergeRound | lab_3/src/corno/minimizer.py:35-70 | one pass of the `while changed` loop computes one round and its flag |
| Minimizer.MergeGroups | lab_3/src/corno/minimizer.py:28-72 | `merge_groups` returns the flattened fixpoint of the rounds |
| Minimizer.PopcountOfRow | lab_3/src/pnf_contructor/truth_table.py:73-78 | the count of ones used as a group key is the count of ones of the row read as a vector |
| Minimizer.ConstituentGroupsLevel | lab_3/src/pnf_contructor/truth_table.py:73-85 | the grouped constituents satisfy the start invariant of merging: star-free, n positions, keyed by their count of ones |
| Minimizer.MergedCoverage | lab_3/src/corno/minimizer.py:28-72 | a full assignment is covered by some merged implicant exactly when it is a constituent |
| Minimizer.MergedPrime | lab_3/src/corno/minimizer.py:28-72 | no two merged implicants can be merged |
| Minimizer.Minimized | lab_3/src/corno/minimizer.py:28-72 | every implicant that `merge_groups` returns has n positions |
| Minimizer.MinimizedEmpty | lab_3/src/corno/minimizer.py:28-72 | merging gives no implicant exactly when there are no constituents |
| Minimizer.MinimizedCoverage | lab_3/src/corno/minimizer.py:28-72 | the implicants of a table's constituents cover exactly the constituents |
| Minimizer.MinimizedPrime | lab_3/src/corno/minimizer.py:28-72 | the implicants of a table's constituents are pairwise unmergeable |
| Minimizer.MergeConstituents | lab_3/src/corno/minimizer.py:185-193 | grouping the listed rows and merging them gives the minimised implicants of their constituents |
| Chart.RowName | lab_3/src/corno/minimizer.py:127 | the row name has one character per position: the digit, or '*' |
| Chart.RowNameInjective | lab_3/src/corno/minimizer.py:127 | different implicants get different row names |
| Chart.ChartRow | lab_3/src/corno/minimizer.py:126-134 | a chart row is the name followed by "X" or " " for each constituent, "X" exactly when the implicant covers it |
| Chart.CreateImplicantMatrix | lab_3/src/corno/minimizer.py:122-135 | the loops build one chart row per implicant, in order |
| Chart.FoundUniqueImplicant | lab_3/src/corno/minimizer.py:150-164 | IndexError on an empty chart; otherwise a set holding, for each column with at most one "X", its row or -1 |
| Chart.ChartColumn | lab_3/src/corno/minimizer.py:122-144 | the rows marked in column j + 1 are exactly the implicants covering constituent j |
| Chart.UniqueAreEssential | lab_3/src/corno/minimizer.py:150-164 | the result holds exactly the essential implicants, plus -1 when some constituent is covered by none |
| Chart.ChartRectangular | lab_3/src/corno/minimizer.py:122-135 | every chart row has one cell per constituent plus the name |
| Chart.LiteralsCount | lab_3/src/corno/minimizer.py:166-180 | `convert_bin_to_var_form` writes one literal per non-star position |
| Chart.AllStarsVarForm | lab_3/src/corno/minimizer.py:166-180 | an all-star implicant renders as the empty string |
| Chart.StarFreeVarForm | lab_3/src/corno/minimizer.py:166-180 | a star-free implicant renders as the canonical term of its row (see `Pdnf` / `Pcnf`) |
| Minimization.EveryColumnCovered | lab_3/src/corno/minimizer.py:185-198 | every constituent is covered by some merged implicant, so no column of the chart is empty |
| Minimization.FoundEssential | lab_3/src/corno/minimizer.py:195-198 | on the chart of merged implicants, the unique-implicant set is exactly the essential implicants |
| Minimization.EssentialTerms | lab_3/src/corno/minimizer.py:195-211 | IndexError when there is no implicant; otherwise the essential implicants, each once, joined as terms |
| Minimization.SetTerms | lab_3/src/corno/minimizer.py:200-211 | the loop renders each member of the index set once, in some order |
| Minimization.TableMinimization | lab_3/src/corno/minimizer.py:182-224 | `computational_table_minimization`: IndexError exactly when the form has no rows; otherwise the essential merged implicants, rendered and joined |
| Minimization.CoveredBy | lab_3/src/corno/minimizer.py:246-250 | the covered constituents are exactly those the implicant matches |
| Minimization.FirstRedundant | lab_3/src/corno/minimizer.py:245-265 | the scan stops at the first implicant that is redundant, or reports that none is |
| Minimization.PruneShrinks | lab_3/src/corno/minimizer.py:242-265 | removing redundant implicants only drops implicants (sub-multiset) |
| Minimization.PruneIrredundant | lab_3/src/corno/minimizer.py:242-265 | when the loop ends no remaining implicant is redundant |
| Minimization.RemoveRedundantCovers | lab_3/src/corno/minimizer.py:254-263 | removing a redundant implicant keeps every constituent covered |
| Minimization.PruneCovers | lab_3/src/corno/minimizer.py:242-265 | removing redundant implicants keeps every constituent covered |
| Minimization.PruneKeepsIdle | lab_3/src/corno/minimizer.py:251-252 | an implicant covering no constituent is never removed |
| Minimization.RemoveRedundant | lab_3/src/corno/minimizer.py:242-265 | the `while changed` loop computes the pruning |
| Minimization.RenderTerms | lab_3/src/corno/minimizer.py:267-276 | each implicant, parenthesised and rendered, joined by "\|" (PDNF) or "&" (PCNF) |
| Minimization.ComputationalMinimization | lab_3/src/corno/minimizer.py:229-278 | `computational_minimization` renders the pruned merged implicants, each over all n variables |
| Minimization.PrunedCoverage | lab_3/src/corno/minimizer.py:229-278 | the pruned implicants still cover exactly the constituents |
| Karnaugh.ToBinaryBits | lab_3/src/corno/minimizer.py:285-286 | `format(k, "0wb")` of k < 2^w is the w-bit string of k, most significant first ("0" for w = 0) |
| Karnaugh.ToBinaryExamples | lab_3/src/corno/minimizer.py:285-286 | 5 at width 3 is "101", 0 at width 2 is "00", 7 at width 3 is "111" |
| Karnaugh.InsertByGray | lab_3/src/corno/minimizer.py:299-300 | an insertion keeps the list ordered by x ^ (x >> 1) and adds exactly x |
| Karnaugh.GraySorted | lab_3/src/corno/minimizer.py:299-300 | the sort is a permutation of its input, ordered by x ^ (x >> 1) |
| Karnaugh.GraySequence | lab_3/src/corno/minimizer.py:299-300 | `row_seq` / `col_seq` is a permutation of range(size) ordered by x ^ (x >> 1) |
| Karnaugh.GrayBelowEight | lab_3/src/corno/minimizer.py:299-300 | the values of x ^ (x >> 1) for x below 8 |
| Karnaugh.EightColumns | lab_3/src/corno/minimizer.py:299-312 | for size 8 the sequence is [0, 1, 3, 2, 7, 6, 4, 5], so the fifth column shows label "110" but holds the minterm with bits "111" |
| Karnaugh.PermutationOfRange | lab_3/src/corno/minimizer.py:299-300 | a permutation of range(size) has distinct entries below size and holds each of them |
| Karnaugh.OrShifted | lab_3/src/corno/minimizer.py:305 | `(a << c) \| b` with b < 2^c is a * 2^c + b |
| Karnaugh.IndexBound | lab_3/src/corno/minimizer.py:305 | the cell's index is below 2^(r + c), so the table lookup is in range |
| Karnaugh.GenerateKarnaughMap | lab_3/src/corno/minimizer.py:288-322 | ValueError with its message exactly for more than 5 variables; otherwise the map's dimensions and orders follow the split n // 2 and cell (i, j) holds the value of table row `(row_seq[i] << s) \| col_seq[j]` |
| Karnaugh.MapUnique | lab_3/src/corno/minimizer.py:288-322 | the map of a table is unique: two maps that both hold every cell of the table are equal |
| Karnaugh.FillRow | lab_3/src/corno/minimizer.py:303-306 | the inner loop fills row i with the table values of its cells |
| Karnaugh.CellOf | lab_3/src/corno/minimizer.py:303-306 | every table row appears at some cell of the map |
| Karnaugh.CellIndexInjective | lab_3/src/corno/minimizer.py:303-306 | distinct cells show distinct table rows |
| Karnaugh.AssignmentsComplete | lab_3/src/corno/minimizer.py:371 | `product([None, 0, 1], repeat=n)` lists every vector over None, 0 and 1 of length n |
| Karnaugh.AssignmentsValid | lab_3/src/corno/minimizer.py:371 | it lists nothing else |
| Karnaugh.GetGroup | lab_3/src/corno/minimizer.py:417-437 | `get_group` lists, row by row, exactly the cells satisfying the assignment |
| Karnaugh.ScanRow | lab_3/src/corno/minimizer.py:428-436 | the inner loop appends the satisfying cells of row i |
| Karnaugh.RowMajorWhereMembers | lab_3/src/corno/minimizer.py:427-436 | the listed cells are exactly the cells of the grid where the test holds |
| Karnaugh.SatisfiesAgrees | lab_3/src/corno/minimizer.py:430-434 | the test on the characters of `to_binary(index, n)` agrees with the test on the bits of index |
| Karnaugh.GroupMembers | lab_3/src/corno/minimizer.py:417-437 | a cell is in the group of an assignment exactly when the bits of its table row agree with the assignment |
| KarnaughCover.CandidatesSound | lab_3/src/corno/minimizer.py:373-378 | every candidate is a non-empty group of a listed assignment whose cells all hold the target |
| KarnaughCover.CandidatesComplete | lab_3/src/corno/minimizer.py:373-378 | every such group is a candidate |
| KarnaughCover.CandidateGroups | lab_3/src/corno/minimizer.py:371-378 | the loop computes the candidate list over all 3^n assignments |
| KarnaughCover.FullAssignmentGroup | lab_3/src/corno/minimizer.py:417-437 | an assignment with no None selects exactly one cell |
| KarnaughCover.CandidatesCoverTargets | lab_3/src/corno/minimizer.py:361-378 | the candidates together cover exactly the target cells |
| KarnaughCover.BestIn | lab_3/src/corno/minimizer.py:384-388 | `max` with a key picks the first group with the most new cells |
| KarnaughCover.GreedyCover | lab_3/src/corno/minimizer.py:381-392 | the greedy loop gives the greedy selection, or ValueError("Cannot cover all positions with Karnaugh grouping") when a step gains nothing |
| KarnaughCover.SelectMinimalCover | lab_3/src/corno/minimizer.py:439-459 | `select_minimal_cover` gives the same selection, or ValueError("Cannot cover all positions") |
| KarnaughCover.BestNew | lab_3/src/corno/minimizer.py:384-390 | no group when the list is empty or the best group adds no new cell; otherwise the first best group |
| KarnaughCover.GreedyProgress | lab_3/src/corno/minimizer.py:383-392 | each selection step strictly shrinks the uncovered part of the candidates' union, so the loop ends |
| KarnaughCover.GreedyCovers | lab_3/src/corno/minimizer.py:381-392 | with the candidates covering the targets, the greedy loop succeeds and selects distinct candidates that cover exactly the targets |
| KarnaughCover.CoverOf | lab_3/src/corno/minimizer.py:399-401 | the loop computes the union of the cells of the other groups |
| KarnaughCover.PruneGroups | lab_3/src/corno/minimizer.py:395-404 | the pruning loop removes, in selection order, each group without which the rest still cover the targets |
| KarnaughCover.PruneStepsCover | lab_3/src/corno/minimizer.py:395-404 | pruning keeps the targets covered and only keeps selected groups |
| KarnaughCover.PruneStepsIrredundant | lab_3/src/corno/minimizer.py:395-404 | after pruning, the groups are distinct and each one is needed |
| KarnaughCover.TermLiteralsAsImplicant | lab_3/src/corno/minimizer.py:461-478 | `group_to_term` writes the same literals as `convert_bin_to_var_form` on the assignment read as a trit vector |
| KarnaughCover.GroupToTermSpec | lab_3/src/corno/minimizer.py:461-478 | `group_to_term` is "1" (PDNF) or "0" (PCNF) for an all-None assignment, and the variable form otherwise |
| KarnaughCover.KarnaughForm | lab_3/src/corno/minimizer.py:407-414 | the form is the terms in parentheses joined by ")\|(" or ")&(" |
| KarnaughCover.RowCovered | lab_3/src/corno/minimizer.py:361-366 | with the chosen groups covering the target cells, a table row has the target value exactly when some chosen assignment agrees with its bits |
| KarnaughCover.NoTargetRows | lab_3/src/corno/minimizer.py:361-368 | there are no target cells exactly when no table row has the target value |
| KarnaughCover.KarnaughMinimization | lab_3/src/corno/minimizer.py:343-415 | ValueError for more than 5 variables; "Doesn't exist" exactly when no row has the target value; otherwise the form of the chosen groups, which are the greedy cover of the table's map with the redundant groups pruned, are distinct, hold exactly the target rows and are each needed by some row |
| KarnaughCover.CoverMap | lab_3/src/corno/minimizer.py:370-415 | on a non-empty target the chosen groups are the greedy cover with the redundant groups pruned; they cover exactly the target rows, are distinct, and each is needed |
| KarnaughCover.LegacyKarnaughMinimization | lab_3/src/corno/computational.py:309-333 | the older variant: "0" (PDNF) or "1" (PCNF) exactly when no row has the target; otherwise the form of the greedy cover of the table's map, without pruning, whose distinct groups hold exactly the target rows |
| KarnaughCover.LegacyCoverMap | lab_3/src/corno/computational.py:316-333 | the older variant's chosen groups are the greedy cover itself, and they hold exactly the target rows |
| KarnaughExamples.AndMapOfTable | lab_3/src/corno/minimizer.py:288-322 | the table of `a & b` has exactly one map: a 2 x 2 grid in Gray order whose only 1 is cell (1, 1) |
| KarnaughExamples.AndZeroCandidates | lab_3/src/corno/minimizer.py:371-378 | on that map the candidates for value 0 are, in `product` order, b = 0, a = 0, and the single zero cells (0, 0), (0, 1), (1, 0) |
| KarnaughExamples.AndOneCandidates | lab_3/src/corno/minimizer.py:371-378 | for value 1 the only candidate is the cell a = 1, b = 1 |
| KarnaughExamples.ZeroGreedy | lab_3/src/corno/minimizer.py:381-392 | the greedy loop for value 0 takes b = 0 (first of the two largest), then a = 0, and stops with every 0 covered |
| KarnaughExamples.OneGreedy | lab_3/src/corno/minimizer.py:381-392 | the greedy loop for value 1 takes the one candidate |
| KarnaughExamples.PruneKeepsTwo | lab_3/src/corno/minimizer.py:395-404 | pruning keeps both of two groups when each covers a target the other misses |
| KarnaughExamples.ZeroOutcome | lab_3/src/corno/minimizer.py:381-414 | on the map of `a & b` the pruned PCNF choice renders as "(b)&(a)" |
| KarnaughExamples.OneOutcome | lab_3/src/corno/minimizer.py:381-414 | on the map of `a & b` the pruned PDNF choice renders as "(a&b)" |
| KarnaughExamples.AndPcnf | lab_3/tests/test_karnaugh_map.py:33-37 | `karnaugh_map_minimization(is_pdnf=False)` on the table of `a & b` returns "(b)&(a)" |
| KarnaughExamples.AndPdnf | lab_3/tests/test_karnaugh_map.py:26-30 | `karnaugh_map_minimization(is_pdnf=True)` on the table of `a & b` returns "(a&b)" |
| LegacyMinimizer.FirstCompatible | lab_3/src/corno/computational.py:205-218 | the inner scan stops at the first other implicant that agrees with implicant i wherever neither has a star, or finds none |
| LegacyMinimizer.PopFirstCompatible | lab_3/src/corno/computational.py:205-218 | the inner loop pops exactly that implicant |
| LegacyMinimizer.RemoveRedundantImplicants | lab_3/src/corno/computational.py:201-221 | `remove_redundant_implicants` computes the rounds of pops |
| LegacyMinimizer.RoundsSubsequence | lab_3/src/corno/computational.py:201-221 | the result is a subsequence of the input |
| LegacyMinimizer.OverlapExample | lab_3/src/corno/computational.py:211-216 | the test pops implicants that merely overlap: of [1*, *1] only 1* stays, and the lost *1 was the only one covering 01 |
| Language.Operator | lab_3/src/pnf_contructor/language.py:67-93 | exactly the seven characters `~ > \| & ! ( )` have an operator token type |
| Language.SkipSpaces | lab_3/src/pnf_contructor/language.py:50-52 | `space_jump` stops at the first non-whitespace position at or after pos, or at the end |
| Language.NextTokenSpec | lab_3/src/pnf_contructor/language.py:54-97 | the next token is the first non-space character as a one-character token (VARIABLE for a letter, else its operator type) with the position just past it; EOF exactly when only whitespace is left; "Invalid character" exactly when the first non-space character is neither |
| Language.NextTokenOk | lab_3/src/pnf_contructor/language.py:54-97 | the next token fails exactly when a non-space character is left and is neither a letter nor an operator; only whitespace left gives EOF at the end; any other token is one character long |
| Language.CyrillicVariable | lab_3/src/pnf_contructor/language.py:61-65 | a Cyrillic letter is a variable, as `str.isalpha` says: the first token of "ж & з" is the variable ж |
| Language.EofStays | lab_3/src/pnf_contructor/language.py:96-97 | after EOF, asking again gives EOF again |
| Language.NextTokenAdvances | lab_3/src/pnf_contructor/language.py:54-97 | a token other than EOF moves the position forward, within the text |
| Language.TokensOk | lab_3/src/pnf_contructor/language.py:54-97 | repeated calls reach EOF without an exception exactly when every character of the text is whitespace, a letter or an operator |
| Language.TokensSpell | lab_3/src/pnf_contructor/language.py:54-97 | the tokens end in one EOF, and their values spell the text with its whitespace removed |
| Language.SortedChars | lab_3/src/pnf_contructor/language.py:40-41 | `sorted` lists every letter of the set once, in ascending order |
| Language.Lexer.constructor | lab_3/src/pnf_contructor/language.py:31-35 | a new lexer is at position 0 with no variables |
| Language.Lexer.GetVariables | lab_3/src/pnf_contructor/language.py:40-41 | `get_variables` lists each seen letter once, as a one-character string, in ascending order |
| Language.Lexer.Advance | lab_3/src/pnf_contructor/language.py:43-48 | `advance` moves one position and keeps the variables |
| Language.Lexer.SpaceJump | lab_3/src/pnf_contructor/language.py:50-52 | `space_jump` moves to the next non-space position |
| Language.Lexer.GetNextToken | lab_3/src/pnf_contructor/language.py:54-97 | `get_next_token` returns the specified next token and moves to the specified position; a variable token adds its letter to the variables |
| Language.Lexer.TokenHere | lab_3/src/pnf_contructor/language.py:61-95 | on a non-space character: a letter gives VARIABLE, an operator character its token, anything else "Invalid character" |
| Grammar.EatToken | lab_2/src/table_truth_generator/grammar.py:13-17 | `eat` succeeds only on the expected type, and then consumes input; otherwise "Invalid syntax" |
| Grammar.ParseElement | lab_2/src/table_truth_generator/grammar.py:19-32 | an element consumes input or fails with a parse or lexing error |
| Grammar.ParseLevel | lab_2/src/table_truth_generator/grammar.py:34-80 | each binary level consumes input or fails with a parse or lexing error |
| Grammar.ParseText | lab_2/src/table_truth_generator/grammar.py:82-86 | parsing a whole text gives a tree or a parse or lexing error |
| Grammar.Parser.Eat | lab_2/src/table_truth_generator/grammar.py:13-17 | the method moves the parser and its lexer to the state `eat` specifies |
| Grammar.Parser.Element | lab_2/src/table_truth_generator/grammar.py:19-32 | `element` computes the element specification |
| Grammar.Parser.Conjunction | lab_2/src/table_truth_generator/grammar.py:34-44 | `conjunction` computes level 0 (folding `&`) |
| Grammar.Parser.Disjunction | lab_2/src/table_truth_generator/grammar.py:46-56 | `disjunction` computes level 1 (folding `\|`) |
| Grammar.Parser.Implication | lab_2/src/table_truth_generator/grammar.py:58-68 | `implication` computes level 2 (folding `>` to the left) |
| Grammar.Parser.Equivalence | lab_2/src/table_truth_generator/grammar.py:70-80 | `equivalence` computes level 3 (folding `~`) |
| Grammar.Parser.Parse | lab_2/src/table_truth_generator/grammar.py:82-86 | `parse` computes the whole-text specification and, on success, ends at EOF |
| Grammar.NewParser | lab_2/src/table_truth_generator/grammar.py:6-8 | the constructor reads the first token, and fails exactly when that lexing fails |
| GrammarRoundTrip.LevelElement | lab_2/src/table_truth_generator/grammar.py:34-80 | an element followed by a token that no level at or below folds is the whole level |
| GrammarRoundTrip.LevelBinary | lab_2/src/table_truth_generator/grammar.py:34-80 | two elements joined by a level-j operator parse at every level from j up as one left-folded binary node |
| GrammarRoundTrip.ElementNot | lab_2/src/table_truth_generator/grammar.py:24-26 | `!` before an element parses as the negation of that element |
| GrammarRoundTrip.ElementParen | lab_2/src/table_truth_generator/grammar.py:27-31 | a parenthesised equivalence parses as that equivalence |
| GrammarChains.FoldLast | lab_2/src/table_truth_generator/grammar.py:34-80 | the fold of a run of operators is to the left: the last operator is the root, over the fold of all before it |
| GrammarChains.LoopFolds | lab_2/src/table_truth_generator/grammar.py:34-80 | the `while` loop of a level, over any run of its operators each followed by an operand of the level below, returns their left fold and stops at the first other token |
| GrammarChains.LevelChain | lab_2/src/table_truth_generator/grammar.py:34-80 | a level parses an operand of the level below followed by any run of its operators and operands as their left fold |
| GrammarChains.LevelLift | lab_2/src/table_truth_generator/grammar.py:34-80 | precedence: what a level reads, followed by a token no level up to k folds, is what every level up to k reads |
| GrammarChains.OneLink | lab_2/src/table_truth_generator/grammar.py:34-80 | one pass of a level's loop gives one binary node over the two operands |
| GrammarChains.ThreeAtLevel | lab_2/src/table_truth_generator/grammar.py:34-86 | three elements joined by two operators of one level parse, at the top, as ((x op y) op z) |
| GrammarChains.ParenPair | lab_2/src/table_truth_generator/grammar.py:27-31 | a bracket `(a c b)` of two letters parses as one element, the binary node of c |
| GrammarChains.ChainOfThree | lab_2/tests/test_grammar.py:74-128 | `x & y & z`, `x \| y \| z`, `x > y > z` and `x ~ y ~ z` parse as ((x c y) c z) |
| GrammarChains.MixedNegationExample | lab_2/tests/test_grammar.py:132-135 | `!(x & y) \| (z > w) ~ v` parses as ((!(x & y)) \| (z > w)) ~ v |
| GrammarChains.BracketedExample | lab_2/tests/test_grammar.py:137-140 | `((x & y) \| z) > (a ~ b)` parses as ((x & y) \| z) > (a ~ b) |
| GrammarRoundTrip.ParseShow | lab_2/src/table_truth_generator/grammar.py:19-86 | parsing the fully parenthesised rendering of a tree with one-letter variables gives that tree back |
| Nodes.ToPythonFails | lab_3/src/pnf_contructor/nodes.py:26-59 | `to_python` raises ValueError exactly when some operator type is unknown, and names the first such one in evaluation order |
| Nodes.ToPythonBalanced | lab_3/src/pnf_contructor/nodes.py:16-59 | the rendering has balanced parentheses, and wraps every operator node in them |
| Nodes.ToPythonExamples | lab_3/src/pnf_contructor/nodes.py:24-51 | `!x` renders "(not x)", `x > y` renders "(not x or y)", and unknown types raise the matching message |
| Nodes.ToPythonNestedExample | lab_3/src/pnf_contructor/nodes.py:24-51 | `!(x & y) \| z` renders "((not (x and y)) or z)" |
| Evaluation.EvaluateDenotes | lab_2/nodes.py:16-56 | with known operators and every variable assigned, `evaluate` gives the boolean meaning of the tree |
| Evaluation.EvaluateFails | lab_2/nodes.py:16-18 | `evaluate` raises KeyError exactly when some variable of the tree is unassigned |
| Evaluation.AssignedParts | lab_2/nodes.py:52-56 | a binary node's variables are all assigned exactly when both operands' are |
| Evaluation.NoneExamples | lab_2/nodes.py:27-56 | an unknown operator type makes its node None, and Python's `not` and `and` then treat None as false |
| LogicalFunctions.NewLogicalFunction | lab_2/logical_function.py:6-13 | a formula that parses gives its tree and its sorted letters; otherwise the parser's or lexer's error |
| LogicalFunctions.EvaluateFunction | lab_2/logical_function.py:15-16 | evaluation fails exactly on an unassigned variable, and otherwise gives the formula's meaning |
| KeyOrder.KeyLessIrreflexive | lab_6/src/avl_tree.py:42 | no key is below itself under Python's `str` order |
| KeyOrder.KeyLessTransitive | lab_6/src/avl_tree.py:42 | Python's `str` order is transitive |
| KeyOrder.KeyLessTotal | lab_6/src/avl_tree.py:42 | any two different keys are ordered one way or the other |
| KeyOrder.KeyLessAsymmetric | lab_6/src/avl_tree.py:42 | two keys are never below each other |
| AvlTrees.HeightPositive | lab_6/src/avl_tree.py:26-29 | with correct stored heights, `_height` is 0 exactly for a missing node |
| AvlTrees.RotateRight | lab_6/src/avl_tree.py:48-58 | `_rotate_right` keeps the in-order sequence of records |
| AvlTrees.RotateLeft | lab_6/src/avl_tree.py:60-70 | `_rotate_left` keeps the in-order sequence of records |
| AvlTrees.AvlParts | lab_6/src/avl_tree.py:26-37 | an AVL node has AVL subtrees, a balance factor within one and the height 1 + max of theirs |
| AvlTrees.JoinAvl | lab_6/src/avl_tree.py:31-32 | a node over AVL subtrees whose heights differ by at most one, with its height updated, is AVL |
| AvlTrees.SingleRight | lab_6/src/avl_tree.py:84-86 | a single right rotation repairs a node two levels left-heavy whose left child is not right-heavy |
| AvlTrees.SingleLeft | lab_6/src/avl_tree.py:90-92 | a single left rotation repairs the mirror case |
| AvlTrees.DoubleRight | lab_6/src/avl_tree.py:87-89 | a left rotation of the left child then a right rotation repairs a left-right imbalance and keeps the records in order |
| AvlTrees.DoubleLeft | lab_6/src/avl_tree.py:93-95 | the mirror double rotation repairs a right-left imbalance and keeps the records in order |
| AvlTrees.InsertedLeft | lab_6/src/avl_tree.py:75-97 | after inserting into the left subtree, the rebalancing test picks a rotation that gives an AVL tree at most one level higher |
| AvlTrees.InsertedRight | lab_6/src/avl_tree.py:77-97 | the same after inserting into the right subtree, on the path equal keys take |
| AvlTrees.Insert | lab_6/src/avl_tree.py:72-97 | `insert`, with the right-right test non-strict, gives an AVL tree for every key, a repeated one included, at most one level higher, with the key added |
| AvlTrees.Leftmost | lab_6/src/avl_tree.py:99-103 | the leftmost node of a non-empty tree has no left child and is one of its keys |
| AvlTrees.DeletedLeft | lab_6/src/avl_tree.py:109-110 | after deleting from the left subtree, the rebalancing gives an AVL tree at most one level lower |
| AvlTrees.DeletedRight | lab_6/src/avl_tree.py:111-112 | the same for the right subtree |
| AvlTrees.Delete | lab_6/src/avl_tree.py:105-144 | `delete` gives an AVL tree at most one level lower, without new keys |
| AvlOrder.ToMapAppend | lab_6/src/avl_tree.py:4-18 | the records of a concatenated walk are the records of both halves, the later ones winning |
| AvlOrder.NodeContents | lab_6/src/avl_tree.py:13-18 | a node's records are its left subtree's, its own and its right subtree's |
| AvlOrder.ContentsKeys | lab_6/src/avl_tree.py:13-18 | the keys of a tree's records are the tree's keys |
| AvlOrder.OrderedParts | lab_6/src/avl_tree.py:39-46 | in an ordered tree every left key is below the node's key and every right key above it |
| AvlOrder.NodeOrdered | lab_6/src/avl_tree.py:39-46 | ordered subtrees on the correct sides of the key make an ordered node |
| AvlOrder.RebalanceInsertedInOrder | lab_6/src/avl_tree.py:82-97 | the insert rebalancing keeps the in-order records |
| AvlOrder.RebalanceDeletedInOrder | lab_6/src/avl_tree.py:129-142 | the delete rebalancing keeps the in-order records |
| AvlOrder.InsertOrdered | lab_6/src/avl_tree.py:72-97 | inserting a new key into an ordered tree keeps it ordered and stores exactly the new record in addition |
| AvlOrder.LeftmostLeast | lab_6/src/avl_tree.py:99-103 | the leftmost node holds the least key of an ordered tree, with its stored value |
| AvlOrder.SuccessorMoved | lab_6/src/avl_tree.py:123-125 | copying the in-order successor into the node and deleting it from the right subtree removes exactly the node's key |
| AvlOrder.DeleteOrdered | lab_6/src/avl_tree.py:105-144 | deleting from an ordered tree keeps it ordered and removes exactly that key's record |
| AvlSearch.FindContents | lab_6/src/avl_tree.py:39-46 | in an ordered tree the walk ends at a node exactly when the key is stored, and that node holds the key's value |
| AvlSearch.Search | lab_6/src/avl_tree.py:39-46 | the `search` loop ends at the node the walk specifies; on an ordered tree, exactly when the key is stored, holding its value |
| AvlSearch.MinValueNode | lab_6/src/avl_tree.py:99-103 | the `_min_value_node` loop ends at the leftmost node, which holds the least key |
| AvlSearch.Update | lab_6/src/hash_table.py:27-28 | replacing a record's value keeps the tree's shape, heights, keys and balance |
| AvlSearch.UpdateOrdered | lab_6/src/hash_table.py:27-28 | on an ordered tree the replacement changes exactly that key's value |
| AvlInsertAsWritten.RebalanceAsWrittenAgrees | lab_6/src/avl_tree.py:84-95 | the as-written rebalancing agrees with the corrected one unless the new key equals the right child's key |
| AvlInsertAsWritten.InsertAsWrittenAgrees | lab_6/src/avl_tree.py:72-97 | for a key not in the tree, `insert` as written is the proved insertion |
| AvlInsertAsWritten.DuplicateKeyCrash | lab_6/src/avl_tree.py:90-95 | inserting "a", "b", "b" reaches the right-left branch with no left child, so `insert` as written raises |
| HashTables.HashIndex | lab_6/src/hash_table.py:66-67 | the bucket index is within the capacity |
| HashTables.CodeSumAppend | lab_6/src/hash_table.py:66-67 | the code-point sum of a concatenation is the sum of both parts |
| HashTables.SwappedCollide | lab_6/src/hash_table.py:66-67 | a + b and b + a always hash to one bucket |
| HashTables.TableLookup | lab_6/src/hash_table.py:30-37 | with every record in the bucket of its hash, a key is in the table exactly when it is in its own bucket, with that value |
| HashTables.WrittenContents | lab_6/src/hash_table.py:16-28 | writing into a bucket stores exactly that record, keeps the bucket's hash, and sets `collision` exactly when the bucket already held a tree |
| HashTables.ErasedContents | lab_6/src/hash_table.py:47-58 | erasing from a tree bucket removes exactly that key and keeps the bucket well formed and hashed |
| HashTables.SetKeepsOk | lab_6/src/hash_table.py:16-28 | `__setitem__` keeps the table invariant (buckets hashed, length equal to the number of records) and stores the record |
| HashTables.DelKeepsOk | lab_6/src/hash_table.py:47-58 | `__delitem__` of a present key keeps the invariant and removes exactly that record |
| HashTables.HashTable.constructor | lab_6/src/hash_table.py:8-11 | a new table has capacity blank buckets and length 0 |
| HashTables.HashTable.Len | lab_6/src/hash_table.py:13-14 | `__len__` is the number of stored records |
| HashTables.HashTable.GetItem | lab_6/src/hash_table.py:30-37 | `__getitem__` returns the stored value, or KeyError(key) exactly when the key is missing |
| HashTables.HashTable.Contains | lab_6/src/hash_table.py:39-45 | `in` holds exactly for stored keys |
| HashTables.HashTable.Get | lab_6/src/hash_table.py:60-64 | `get` returns the stored value or the default |
| HashTables.HashTable.SetItem | lab_6/src/hash_table.py:16-28 | `__setitem__` stores the value under the key, counts a new key once, and flags a collision exactly when the bucket already held a tree |
| HashTables.HashTable.DelItem | lab_6/src/hash_table.py:47-58 | `__delitem__` raises KeyError and changes nothing exactly for a missing key; otherwise it removes that record and decrements the length |
| BitFields.Slice | lab_7/src/diagonal_matrix.py:29 | Python's `s[i:j]` has min(j, len) - min(i, len) elements |
| BitFields.ValueAppend | lab_7/src/diagonal_matrix.py:84-98 | the value of a concatenation is the front's value shifted by the back's length plus the back's value |
| BitFields.FirstDifference | lab_7/src/diagonal_matrix.py:118-126 | of two equal-length bit strings, the one with 1 at the first differing bit is the greater |
| BitFields.CompareField | lab_7/src/diagonal_matrix.py:116-131 | the comparison loop sets g exactly when the field is greater than the value, and l exactly when it is less |
| BitFields.SumBits | lab_7/src/diagonal_matrix.py:86-93 | the carry loop, over the length of a, indexes b and raises IndexError exactly when b is shorter; otherwise it gives a + b[:len(a)] with an optional carry digit |
| BitFields.FitFive | lab_7/src/diagonal_matrix.py:94-97 | cutting to the last five bits or zero-padding to five gives the value modulo 32 |
| BitFields.Format | lab_7/src/diagonal_matrix.py:146-147 | `format(v, "0nb")` raises for a negative v, and has exactly n digits, worth v, exactly when v < 2^n |
| BitFields.WidthFits | lab_7/src/diagonal_matrix.py:146-147 | the unpadded binary of v fits in n digits exactly when n > 0 and v < 2^n |
| BitFields.AddToWord | lab_7/src/diagonal_matrix.py:84-98 | rewriting one matched word: IndexError for a word of 4 to 10 bits, the word unchanged in length exactly at 16 bits, and then the field sum |
| BitFields.FieldSumValue | lab_7/src/diagonal_matrix.py:84-98 | the new 16-bit word keeps bits 0-10, and its last five bits hold A + B for A = bits 3-6 and B = bits 7-10 |
| DiagonalMatrices.FlaggedIndices | lab_7/src/diagonal_matrix.py:157 | the final list holds exactly the indices whose flag is 1, in ascending order |
| DiagonalMatrices.WordRow | lab_7/src/diagonal_matrix.py:27-30 | bit k of word `index` comes from row (k + index) mod size |
| DiagonalMatrices.DiagonalOfCell | lab_7/src/diagonal_matrix.py:39-44 | cell (i, j) is on diagonal k exactly when k is i - j modulo size |
| DiagonalMatrices.Inhibition | lab_7/src/diagonal_matrix.py:55-58 | ValueError for lengths that differ; otherwise bit i is 1 exactly when a[i] is 1 and b[i] is 0 |
| DiagonalMatrices.Disjunction | lab_7/src/diagonal_matrix.py:61-64 | ValueError for lengths that differ; otherwise bit i is 1 exactly when a[i] or b[i] is 1 |
| DiagonalMatrices.Peirce | lab_7/src/diagonal_matrix.py:67-70 | ValueError for lengths that differ; otherwise bit i is 1 exactly when both are 0 |
| DiagonalMatrices.Implication | lab_7/src/diagonal_matrix.py:73-76 | ValueError for lengths that differ; otherwise bit i is 1 exactly when a[i] is 0 or b[i] is 1 |
| DiagonalMatrices.LogicDuals | lab_7/src/diagonal_matrix.py:55-76 | inhibition is the complement of implication, and Peirce's arrow the complement of disjunction |
| DiagonalMatrices.DiagonalMatrix.constructor | lab_7/src/diagonal_matrix.py:6-17 | the object holds the given matrix and three zeroed flag lists |
| DiagonalMatrices.Create | lab_7/src/diagonal_matrix.py:6-17 | ValueError exactly when the matrix is not size x size; otherwise an object holding it |
| DiagonalMatrices.DiagonalMatrix.GetColumn | lab_7/src/diagonal_matrix.py:24-25 | column `index`, top to bottom; IndexError for an index past the size |
| DiagonalMatrices.DiagonalMatrix.FindWord | lab_7/src/diagonal_matrix.py:27-30 | word `index` is its column rotated up by index; IndexError for an index past the size |
| DiagonalMatrices.DiagonalMatrix.ChangeWord | lab_7/src/diagonal_matrix.py:32-37 | ValueError for a wrong length and IndexError past the size, changing nothing; otherwise `find_word` then reads the new word back, and every other column is unchanged |
| DiagonalMatrices.DiagonalMatrix.FindDiagonal | lab_7/src/diagonal_matrix.py:39-44 | diagonal k has one bit per column |
| DiagonalMatrices.DiagonalMatrix.ChangeDiagonal | lab_7/src/diagonal_matrix.py:46-51 | ValueError for a wrong length; otherwise `find_diagonal` reads the new diagonal back, and every cell off it, and so every other diagonal, is unchanged |
| DiagonalMatrices.DiagonalMatrix.AddFields | lab_7/src/diagonal_matrix.py:78-99 | ValueError for a key that is not 3 bits; otherwise every word starting with the key gets A + B in its last bits and the others are unchanged; a matched word in a matrix of size other than 16 raises (IndexError for 4 to 10, else ValueError) |
| DiagonalMatrices.DiagonalMatrix.AddToWordAt | lab_7/src/diagonal_matrix.py:82-99 | one pass of the loop: word i is rewritten when it starts with the key, and no other word changes |
| DiagonalMatrices.DiagonalMatrix.PerformComparison | lab_7/src/diagonal_matrix.py:109-131 | ValueError for a value of the wrong length; otherwise the g and l flags of word j say whether its field is greater or less than the value |
| DiagonalMatrices.DiagonalMatrix.InitializeResultFlags | lab_7/src/diagonal_matrix.py:106-107 | every result flag is 1 |
| DiagonalMatrices.DiagonalMatrix.ApplyLessThanCondition | lab_7/src/diagonal_matrix.py:133-136 | a result flag survives exactly where the field is less than the value |
| DiagonalMatrices.DiagonalMatrix.ApplyGreaterThanCondition | lab_7/src/diagonal_matrix.py:138-141 | a result flag survives exactly where the field is greater than the value |
| DiagonalMatrices.DiagonalMatrix.SearchInterval | lab_7/src/diagonal_matrix.py:143-157 | ValueError when a bound does not fit the field; otherwise exactly the words whose field lies strictly between the bounds, in ascending order, with the matrix unchanged |

## Left out

- Printing and display: `print_group`, `display_karnaugh_map`, the `display_*` flags of the
  minimiser (taken as false), `TruthTable.display`, `DiagonalMatrix.print`,
  `HashTable.__str__` / `print_table`, and the tree printer in `lab_6/utils`.
- The interactive menus and demo scripts (`main.py` of every lab, `lab_3/src/corno/test.py`,
  `avl_tree.main`): these are input loops around the modelled code.
- Floating point in `binary_data_types.py`: `BinaryFloatFixed`, `BinaryFloatIEEE`,
  `conver_with_fixed_point`, `convert_ieee`.
- BinaryInts.Divide: returns the quotient bit string only; the `BinaryFloatFixed` object the
  source builds from it, and its float value, are not modelled.
- The drafts `int_binaries.py` and `float_binaries.py` in lab_1: they call names that do not
  exist and are superseded by `binary_data_types.py`.
- `lab_2/src/table_truth_generator/logical_function.py` evaluates a generated Python lambda
  with `eval`; the `evaluate` of `lab_2/nodes.py` is used as the formula semantics instead.
- `lab_2/truth_table.py` calls `get_nodes_postorder` and a two-argument `evaluate`, which
  `lab_2/nodes.py` does not define; it is not part of this model.
- `lab_2/grammar.py` differs from `lab_2/src/table_truth_generator/grammar.py` only in its
  imports and type annotations; the Grammar module models both.
- The formula constructors of the truth tables take the formula as its evaluator over an
  assignment (a function parameter), not as text.
- `DiagonalMatrix.generate_random_matrix` and the default size 16: the constructor always
  takes an explicit matrix, since randomness is not modelled.
- The hash table calls `insert(info)`, `update(info)` and `delete(key)` on a bucket's tree
  with one argument each (`lab_6/src/hash_table.py:25`, `:28`, `:55`). These do not match
  `avl_tree.py`, whose `insert` and `delete` also take the root and which has no `update`, so
  the calls as written would raise TypeError or AttributeError. They are modelled as
  `root := Insert(root, info)`, a value replacement along the search path (AvlSearch.Update)
  and `root := Delete(root, key)`.
- The AVL tree and its nodes are values, not linked objects: the in-place pointer rewriting
  of the rotations, `insert` and `delete` (and any aliasing between nodes) is not captured.
- TruthTables.TruthTable.FromRows: requires every row to be non-empty. On an empty row
  `_calculate_forms` raises IndexError at `row[-1]`; the model excludes that case by its
  precondition and does not model the error.
- Chart.FoundUniqueImplicant: the result is a set; the order in which `tuple(set(...))` lists
  it is not fixed by the model.
- AvlTrees.Delete: states only that no key is added; that exactly the key is removed is
  AvlOrder.DeleteOrdered, on ordered trees.
- Grammar.ParseElement, Grammar.ParseLevel, Grammar.ParseText: their own contracts state only
  progress and the error shape. Left association over any run of one level's operators is
  GrammarChains.LevelChain; precedence between levels is GrammarChains.LevelLift; the
  parenthesis and negation rules are GrammarRoundTrip.ElementParen and ElementNot. Whole texts
  are stated for the fully parenthesised rendering of every tree (GrammarRoundTrip.ParseShow)
  and for the lab's chain and mixed test formulas, not for every unbracketed text.
- Language.IsAlpha: `str.isalpha` is exact for every character below U+0530 (Latin, IPA, Greek,
  Cyrillic); a letter of a later script (Armenian, Hebrew, Arabic, the CJK ideographs and so on)
  is treated as not alphabetic, so the lexer reports "Invalid character" where Python would read
  a variable. This reaches Language.NextTokenSpec, Language.TokensOk, Language.Lexer.GetNextToken,
  Language.Lexer.TokenHere, Grammar.ParseText and LogicalFunctions.NewLogicalFunction.
- Language.NextTokenSpec: exact for characters below U+0530; see Language.IsAlpha.
- Language.TokensOk: exact for characters below U+0530; see Language.IsAlpha.
- Language.Lexer.GetNextToken: exact for characters below U+0530; see Language.IsAlpha.
- Language.Lexer.TokenHere: exact for characters below U+0530; see Language.IsAlpha.
- Minimization.EssentialTerms, Minimization.SetTerms, Minimization.TableMinimization: the
  source joins the terms in the iteration order of a Python set (`tuple(set(...))`), which
  depends on string hashing; the model fixes which terms appear, each once, but leaves their
  order free, so the result string is fixed only up to the order of its terms.
- DiagonalMatrices.DiagonalMatrix.FindDiagonal: its contract states only the length; which
  cells it reads is stated by ChangeDiagonal, which writes and reads back through it.
- Minimizer.Minimized: its own contract states only the width of the implicants; coverage
  and primality are MinimizedCoverage and MinimizedPrime.
- The Karnaugh path is worked through to its output string only for the two-variable table of
  `a & b` (KarnaughExamples). For the three-variable function `(a & b) | (!a & c)` of
  lab_3/tests/test_karnaugh_map.py:41-52 the model proves the general properties of the chosen
  groups (exact cover, each group needed), not the strings "(!a&c)|(a&b)" and "(a|c)&(!a|b)":
  evaluating the 27 assignments against a 2 x 4 map is beyond what the verifier settles here.

Where the description of the labs and the code disagree, the model follows the code:

- The chart and redundancy-elimination paths render an implicant with every position `*` as
  `()` (`convert_bin_to_var_form` gives the empty string); only the Karnaugh path's
  `group_to_term` gives "1" or "0".
- On a constant function the chart path fails with IndexError at `implicant_matrix[0]`
  rather than returning a form.
- For eight columns the order `sorted(range(8), key=lambda x: x ^ (x >> 1))` is
  [0, 1, 3, 2, 7, 6, 4, 5], which is not Gray order and disagrees with the printed labels;
  no adjacency is claimed for it.

## Findings

| source | as written | input that shows it | evidently intended | confidence | as-written member | corrected member |
|---|---|---|---|---|---|---|
| lab_6/src/avl_tree.py:91 | the right-heavy case tests `hash_info.key > root.right.hash_info.key`, while line 78 sends an equal key to the right | insert "a", "b", "b": the second "b" lands right of "b", the strict test fails, and `_rotate_right(root.right)` is called on a node with no left child, so `insert` raises | a non-strict test (`>=`), matching where equal keys go | not executed | AvlInsertAsWritten.DuplicateKeyCrash | AvlTrees.Insert |
