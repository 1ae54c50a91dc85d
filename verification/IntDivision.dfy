/** Truncated integer division, the meaning C and C++ give to `/` and `%`. */
module IntDivision {
  import opened Powers

  function Abs(x: int): nat {
    if x < 0 then -x else x
  }

  function Signed(positive: bool, magnitude: nat): int {
    if positive then magnitude else 0 - magnitude
  }

  /** Rounds towards zero. */
  function TruncQuot(x: int, y: int): int
    requires y != 0
  {
    Signed((x >= 0) == (y >= 0), Quot(Abs(x), Abs(y)))
  }

  /** Zero, or of the dividend's sign. */
  function TruncRem(x: int, y: int): int
    requires y != 0
  {
    Signed(x >= 0, Rem(Abs(x), Abs(y)))
  }

  /** The division identity, with the remainder below the divisor and on the dividend's side. */
  ghost predicate IsTruncatedDivision(x: int, y: int, q: int, r: int) {
    x == q * y + r && Abs(r) < Abs(y) && (r == 0 || (r > 0) == (x > 0))
  }

  /** Every dividend and non-zero divisor have exactly one quotient and remainder of that kind,
      and they are TruncQuot and TruncRem. */
  lemma TruncatedDivisionUnique(x: int, y: int, q: int, r: int)
    requires y != 0
    ensures IsTruncatedDivision(x, y, q, r) <==> q == TruncQuot(x, y) && r == TruncRem(x, y)
  {
    var q', r' := TruncQuot(x, y), TruncRem(x, y);
    TruncatedIdentity(x, y);
    if IsTruncatedDivision(x, y, q, r) && q != q' {
      assert (q - q') * y == r' - r;
      AtLeastOnce(q - q', y);
      assert false;
    }
  }

  lemma TruncatedIdentity(x: int, y: int)
    requires y != 0
    ensures IsTruncatedDivision(x, y, TruncQuot(x, y), TruncRem(x, y))
  {
    var aq, ay: int := Quot(Abs(x), Abs(y)), Abs(y);
    QuotRem(Abs(x), Abs(y));
    assert (0 - aq) * ay == 0 - aq * ay && aq * (0 - ay) == 0 - aq * ay && (0 - aq) * (0 - ay) == aq * ay;
  }

  lemma AtLeastOnce(k: int, y: int)
    requires k != 0
    ensures Abs(k * y) >= Abs(y)
  {
    if y >= 0 {
      if k > 0 { MulAtLeast(y, 1, k); } else { MulAtLeast(y, k, -1); }
    } else {
      if k > 0 { MulAtLeast(-y, 1, k); } else { MulAtLeast(-y, k, -1); }
      assert k * (-y) == -(k * y);
    }
  }
}
