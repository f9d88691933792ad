/** Python's ordering of `str` keys: lexicographic by code point, a proper prefix first. */
module KeyOrder {
  predicate KeyLess(a: string, b: string)
    decreases |a|
  {
    if |a| == 0 then |b| > 0
    else if |b| == 0 then false
    else if a[0] != b[0] then a[0] < b[0]
    else KeyLess(a[1..], b[1..])
  }

  lemma {:induction false} KeyLessIrreflexive(a: string)
    ensures !KeyLess(a, a)
    decreases |a|
  {
    if |a| > 0 {
      KeyLessIrreflexive(a[1..]);
    }
  }

  lemma {:induction false} KeyLessTransitive(a: string, b: string, c: string)
    requires KeyLess(a, b) && KeyLess(b, c)
    ensures KeyLess(a, c)
    decreases |a|
  {
    if |a| > 0 && a[0] == b[0] && b[0] == c[0] {
      KeyLessTransitive(a[1..], b[1..], c[1..]);
    }
  }

  /** Two different keys are ordered one way or the other. */
  lemma {:induction false} KeyLessTotal(a: string, b: string)
    ensures a == b || KeyLess(a, b) || KeyLess(b, a)
    decreases |a|
  {
    if |a| > 0 && |b| > 0 && a[0] == b[0] {
      KeyLessTotal(a[1..], b[1..]);
      if a[1..] == b[1..] {
        assert a == [a[0]] + a[1..] && b == [b[0]] + b[1..];
      }
    }
  }

  lemma KeyLessAsymmetric(a: string, b: string)
    requires KeyLess(a, b)
    ensures !KeyLess(b, a)
  {
    if KeyLess(b, a) {
      KeyLessTransitive(a, b, a);
      KeyLessIrreflexive(a);
    }
  }
}
