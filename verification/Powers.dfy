/** Powers and the handful of nonlinear facts the digit arithmetic rests on.
    Every product of two variables is isolated in a lemma here, so that the proofs about
    digit strings stay linear. */
module Powers {
  /** A digit base: the number of values one digit can take. */
  type Base = b: nat | 2 <= b witness 2

  function Pow(b: nat, n: nat): (p: nat)
    ensures b > 0 ==> p > 0
  {
    if n == 0 then 1 else b * Pow(b, n - 1)
  }

  lemma {:induction false} PowAdd(b: nat, m: nat, n: nat)
    ensures Pow(b, m + n) == Pow(b, m) * Pow(b, n)
  {
    if m != 0 {
      PowAdd(b, m - 1, n);
      MulAssoc(b, Pow(b, m - 1), Pow(b, n));
    }
  }

  lemma {:induction false} PowMonotone(b: Base, m: nat, n: nat)
    requires m <= n
    ensures Pow(b, m) <= Pow(b, n)
    ensures m < n ==> Pow(b, m) < Pow(b, n)
  {
    if m < n {
      PowMonotone(b, m, n - 1);
      MulAtLeast(Pow(b, n - 1), 2, b);
    }
  }

  lemma {:induction false} PowPow(b: nat, m: nat, n: nat)
    ensures Pow(Pow(b, m), n) == Pow(b, m * n)
  {
    if n != 0 {
      PowPow(b, m, n - 1);
      PowAdd(b, m, m * (n - 1));
      assert m * n == m + m * (n - 1);
    }
  }

  lemma MulCommutes(x: int, y: int)
    ensures x * y == y * x
  {}

  lemma MulAssoc(x: int, y: int, z: int)
    ensures x * (y * z) == (x * y) * z
  {}

  lemma Distribute(b: int, v: int, p: int, w: int)
    ensures b * (v + p * w) == b * v + (b * p) * w
    ensures b * (v + w * p) == b * v + w * (b * p)
  {}

  lemma MulAtLeast(p: nat, x: int, y: int)
    requires x <= y
    ensures x * p <= y * p && p * x <= p * y
  {}

  lemma MulLess(p: nat, x: int, y: int)
    requires x < y && p > 0
    ensures x * p < y * p && x * p + p <= y * p
  {
    MulAtLeast(p, x + 1, y);
  }

  /** Unsigned division and remainder, kept behind names so that a digit-string proof does not
      reason about the operators. */
  function Quot(x: nat, d: nat): nat
    requires d > 0
  {
    x / d
  }

  function Rem(x: nat, d: nat): (r: nat)
    requires d > 0
    ensures r < d
  {
    x % d
  }

  /** Splitting a number at a divisor, in the form the carries use. */
  lemma DivMod(x: nat, d: nat)
    requires d > 0
    ensures x == (x / d) * d + x % d
    ensures 0 <= x % d < d
  {}

  lemma QuotRem(x: nat, d: nat)
    requires d > 0
    ensures x == Quot(x, d) * d + Rem(x, d)
  {}

  /** The quotient and remainder of a division are the only pair of their kind. */
  lemma DivUnique(x: nat, d: nat, q: nat, r: nat)
    requires x == q * d + r && r < d
    ensures x / d == q && x % d == r
  {
    var q', r' := x / d, x % d;
    DivMod(x, d);
    if q < q' {
      MulLess(d, q, q');
      assert false;
    } else if q' < q {
      MulLess(d, q', q);
      assert false;
    }
  }

  lemma QuotUnique(x: nat, d: nat, q: nat, r: nat)
    requires x == q * d + r && r < d
    ensures Quot(x, d) == q && Rem(x, d) == r
  {
    DivUnique(x, d, q, r);
  }

  lemma DivBound(x: nat, d: nat, k: nat)
    requires d > 0 && x < k * d
    ensures x / d < k
  {
    DivMod(x, d);
    if x / d >= k {
      MulAtLeast(d, k, x / d);
      assert false;
    }
  }
}
