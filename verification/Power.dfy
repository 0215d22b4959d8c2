/** Powers of two, products and quotients. */
module Power {
  function Pow2(n: nat): (p: nat)
    ensures p >= 1
  {
    if n == 0 then 1 else 2 * Pow2(n - 1)
  }

  lemma {:induction false} Pow2Sum(a: nat, b: nat)
    ensures Pow2(a + b) == Pow2(a) * Pow2(b)
  {
    if a == 0 {
    } else {
      Pow2Sum(a - 1, b);
      assert Pow2(a + b) == 2 * Pow2(a - 1 + b);
    }
  }

  lemma {:induction false} Pow2Monotone(a: nat, b: nat)
    requires a <= b
    ensures Pow2(a) <= Pow2(b)
  {
    if a >= b {
    } else {
      Pow2Monotone(a, b - 1);
    }
  }

  /** `b` to the power of `e`. */
  function Raise(b: nat, e: nat): nat {
    if e == 0 then 1 else b * Raise(b, e - 1)
  }

  // ---------- products and quotients ----------

  lemma {:induction false} MulMonotone(a: int, b: int, c: int)
    requires a <= b && c >= 0
    ensures a * c <= b * c
  {
  }

  lemma {:induction false} Times(a: nat, b: nat, c: nat, d: nat)
    requires a <= b && c <= d
    ensures a * c <= b * d
  {
    MulMonotone(a, b, c);
    MulMonotone(c, d, b);
  }

  lemma {:induction false} PositiveFactor(a: int, c: int)
    requires c > 0 && a * c > 0
    ensures a > 0
  {
  }

  lemma {:induction false} MulCancel(a: int, b: int, c: int)
    requires c > 0 && a * c < b * c
    ensures a < b
  {
    assert (b - a) * c == b * c - a * c;
    PositiveFactor(b - a, c);
  }

  /** Quotient and remainder are determined by what they add up to. */
  lemma {:induction false} DivUnique(x: int, p: int, d: int, r: int)
    requires p > 0 && x == d * p + r && 0 <= r < p
    ensures x / p == d && x % p == r
  {
    var d', r' := x / p, x % p;
    assert x == d' * p + r';
    assert (d + 1) * p == d * p + p && (d' + 1) * p == d' * p + p;
    MulCancel(d', d + 1, p);
    MulCancel(d, d' + 1, p);
  }

  lemma {:induction false} DivBound(f: int, p: int, q: int)
    requires p > 0 && q > 0 && 0 <= f < p * q
    ensures 0 <= f / q < p
  {
    var d, r := f / q, f % q;
    assert f == d * q + r;
    MulCancel(d, p, q);
  }

  lemma {:induction false} Multiple(a: int, p: int)
    requires p > 0
    ensures (a * p) % p == 0
  {
    DivUnique(a * p, p, a, 0);
  }
}
