/** Facts about Euclidean division that the solver does not find on its own. */
module Arithmetic {

  lemma {:induction false} MulAtLeast(d: int, t: int)
    requires d > 0 && t >= 1
    ensures d * t >= d
    decreases t
  {
    if t > 1 {
      MulAtLeast(d, t - 1);
      assert d * t == d * (t - 1) + d;
    }
  }

  /** Quotient and remainder are unique: x = d * q + r with 0 <= r < d gives x / d = q and x % d = r. */
  lemma DivModUnique(x: int, q: int, r: int, d: int)
    requires d > 0 && 0 <= r < d && x == d * q + r
    ensures x / d == q && x % d == r
  {
    var q', r' := x / d, x % d;
    assert x == d * q' + r';
    assert d * (q - q') == r' - r;
    if q - q' >= 1 {
      MulAtLeast(d, q - q');
    } else if q' - q >= 1 {
      MulAtLeast(d, q' - q);
    }
  }

  /** Adding a multiple of d does not change the remainder. */
  lemma ModAddMultiple(x: int, t: int, d: int)
    requires d > 0
    ensures (x + d * t) % d == x % d
  {
    var q := x / d;
    assert x == d * q + x % d;
    assert x + d * t == d * (q + t) + x % d;
    DivModUnique(x + d * t, q + t, x % d, d);
  }

  /** Products of non-negative numbers grow with their factors. */
  lemma MulMonotone(a: int, b: int, c: int, d: int)
    requires 0 <= a <= c && 0 <= b <= d
    ensures a * b <= c * d
  {
    assert a * b <= a * d by {
      assert a * d - a * b == a * (d - b);
    }
    assert a * d <= c * d by {
      assert c * d - a * d == (c - a) * d;
    }
  }

  /** Strictly smaller non-negative factors give a strictly smaller product. */
  lemma MulStrict(a: int, b: int, c: int, d: int)
    requires 0 <= a < c && 0 <= b < d
    ensures a * b < c * d
  {
    MulMonotone(a, b, a, d - 1);
    assert a * (d - 1) < c * d by {
      assert c * d - a * (d - 1) == (c - a) * d + a;
      MulAtLeast(d, c - a);
    }
  }
}
