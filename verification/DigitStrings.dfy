/** The digit-string primitives of bigint.cpp, in place on arrays.

    `b` is the digit base, one more than the largest `onedig_t`. A `twodig_t` holds the
    numbers below `b * b`; every double-digit intermediate goes through `Two`, so that its
    precondition is the proof that the C++ arithmetic does not overflow. Truncation to a
    digit is `Low` and the shift by a digit's width is `High`. */
module DigitStrings {
  import opened Powers
  import opened DigitValue

  /** A double-digit intermediate: the C++ result when nothing overflows. */
  function Two(b: Base, x: int): (t: nat)
    requires 0 <= x < b * b
  {
    x
  }

  /** Truncation to a single digit, and the shift that drops that digit. */
  function Low(b: Base, x: nat): (d: nat)
    ensures d < b
  {
    x % b
  }

  function High(b: Base, x: nat): nat {
    x / b
  }

  lemma LowHigh(b: Base, x: nat)
    ensures x == High(b, x) * b + Low(b, x)
  {
    DivMod(x, b);
  }

  /** Three single digits fit in a double digit. */
  lemma SumFits(b: Base, x: nat)
    requires x < 2 * b
    ensures x < b * b
  {
    MulAtLeast(b, 2, b);
  }

  /** A digit product leaves room for two more digits, exactly. */
  lemma ProductFits(b: Base, d: nat, e: nat, c: nat)
    requires d < b && e < b && c <= 2 * (b - 1)
    ensures 0 <= d * e && d * e + c < b * b
  {
    MulAtLeast(e, d, b - 1);
    MulAtLeast(b - 1, e, b - 1);
    assert (b - 1) * (b - 1) == b * b - 2 * b + 1;
  }

  /** The carry left after a digit is stored. */
  lemma CarryFits(b: Base, x: nat)
    requires x < b * b
    ensures High(b, x) < b && Low(b, x) < b && x == High(b, x) * b + Low(b, x)
  {
    DivBound(x, b, b);
    DivMod(x, b);
  }

  /** The carry of a sum of two digits and a carry is at most one. */
  lemma SumCarry(b: Base, x: nat)
    requires x < 2 * b
    ensures High(b, x) <= 1 && Low(b, x) < b && x == High(b, x) * b + Low(b, x) && x < b * b
    ensures High(b, x) == (if x < b then 0 else 1)
  {
    SumFits(b, x);
    CarryFits(b, x);
    DivBound(x, b, 2);
    if x < b { DivUnique(x, b, 0, x); } else { DivUnique(x, b, 1, x - b); }
  }

  /** What every upward loop keeps: the digits stored so far and the carry still to be placed
      above them stand for v. */
  ghost predicate Carried(b: Base, r: seq<nat>, c: int, v: int) {
    AllDigits(b, r) && Value(b, r) + c * Pow(b, |r|) == v
  }

  /** One round of a carrying loop: e is the weight added at the next position. */
  lemma CarryStep(b: Base, r: seq<nat>, c: nat, v: int, e: int)
    requires Carried(b, r, c, v) && c + e >= 0
    ensures Carried(b, r + [Low(b, c + e)], High(b, c + e), v + e * Pow(b, |r|))
  {
    LowHigh(b, c + e);
    CarryInto(b, r, c, v, e, High(b, c + e), Low(b, c + e));
  }

  /** The same round for any split of the sum into a carry, possibly negative, and a digit. */
  lemma CarryInto(b: Base, r: seq<nat>, c: int, v: int, e: int, high: int, low: nat)
    requires Carried(b, r, c, v) && c + e == high * b + low && low < b
    ensures Carried(b, r + [low], high, v + e * Pow(b, |r|))
  {
    ValueSnoc(b, r, low);
    CarryAlgebra(b, Pow(b, |r|), high, low, c, e);
  }

  lemma CarryAlgebra(b: int, p: int, high: int, low: int, c: int, e: int)
    requires c + e == high * b + low
    ensures low * p + high * (b * p) == c * p + e * p
  {
    assert (high * b + low) * p == high * (b * p) + low * p;
  }

  // -1, 0 or 1 as the first number is below, equal to or above the second.
  function Order(x: int, y: int): int {
    if x < y then -1 else if x > y then 1 else 0
  }

  /** Compares two digit strings of length n from the top. */
  method DigitCmp(b: Base, x: array<nat>, xo: nat, y: array<nat>, yo: nat, n: nat) returns (r: int)
    requires xo + n <= x.Length && yo + n <= y.Length
    requires AllDigits(b, x[xo..xo + n]) && AllDigits(b, y[yo..yo + n])
    ensures r == Order(Value(b, x[xo..xo + n]), Value(b, y[yo..yo + n]))
  {
    ghost var s, t := x[xo..xo + n], y[yo..yo + n];
    var i := n;
    while i > 0
      invariant 0 <= i <= n
      invariant s[i..] == t[i..]
    {
      i := i - 1;
      assert s[i] == x[xo + i] && t[i] == y[yo + i];
      if x[xo + i] < y[yo + i] {
        DecidedAt(b, s, t, i);
        return -1;
      }
      if x[xo + i] > y[yo + i] {
        DecidedAt(b, t, s, i);
        return 1;
      }
      assert s[i..] == [s[i]] + s[i + 1..] && t[i..] == [t[i]] + t[i + 1..];
    }
    assert s[0..] == s && t[0..] == t;
    return 0;
  }

  /** Adds two digit strings, the first at least as long as the second; `r` may be the array of
      either operand or of both. Returns the carry. */
  method DigitAdd(b: Base, d1: array<nat>, l1: nat, d2: array<nat>, l2: nat, r: array<nat>)
    returns (carry: nat)
    requires l2 <= l1 <= d1.Length && l2 <= d2.Length && l1 <= r.Length
    requires AllDigits(b, d1[..l1]) && AllDigits(b, d2[..l2])
    modifies r
    ensures carry <= 1
    ensures Carried(b, r[..l1], carry, Value(b, old(d1[..l1])) + Value(b, old(d2[..l2])))
    ensures r[l1..] == old(r[l1..])
  {
    hide Value, Pow;
    ghost var s1, s2 := d1[..l1], d2[..l2];
    var c: nat := 0;
    var i := 0;
    BaseCases(b);
    assert r[..0] == [] && s1[..0] == [] && s2[..0] == [];
    while i < l2
      invariant 0 <= i <= l2 && c <= 1
      invariant forall k :: i <= k < r.Length ==> r[k] == old(r[k])
      invariant Carried(b, r[..i], c, Value(b, s1[..i]) + Value(b, s2[..i]))
    {
      assert d1[i] == s1[i] && d2[i] == s2[i];
      AddStep(b, r[..i], c, s1, s2, i);
      ghost var was := r[..i];
      c := Two(b, c + d1[i] + d2[i]);
      r[i] := Low(b, c);
      assert r[..i + 1] == was + [Low(b, c)];
      i := i + 1;
      c := High(b, c);
    }
    assert s2[..l2] == s2;
    carry := AddTail(b, d1, l1, r, i, c, s1, Value(b, s2));
  }

  /** The second loop of the addition: only the carry and the longer operand are left. As soon
      as there is no carry the remaining digits are copied. */
  method AddTail(b: Base, d1: array<nat>, l1: nat, r: array<nat>, start: nat, c0: nat, ghost s1: seq<nat>, ghost v: int)
    returns (c: nat)
    requires start <= l1 <= d1.Length && l1 <= r.Length && |s1| == l1 && AllDigits(b, s1)
    requires forall k :: start <= k < l1 ==> d1[k] == s1[k]
    requires c0 <= 1 && Carried(b, r[..start], c0, Value(b, s1[..start]) + v)
    modifies r
    ensures c <= 1
    ensures Carried(b, r[..l1], c, Value(b, s1) + v)
    ensures forall k :: l1 <= k < r.Length ==> r[k] == old(r[k])
  {
    c := c0;
    var i := start;
    while i < l1
      invariant start <= i <= l1 && c <= 1
      invariant forall k :: i <= k < r.Length ==> r[k] == old(r[k])
      invariant Carried(b, r[..i], c, Value(b, s1[..i]) + v)
    {
      assert d1[i] == s1[i];
      AddTailStep(b, r[..i], c, s1, v, i);
      ghost var was := r[..i];
      c := Two(b, c + d1[i]);
      r[i] := Low(b, c);
      assert r[..i + 1] == was + [Low(b, c)];
      i := i + 1;
      c := High(b, c);
      if c == 0 {
        CopyTail(b, d1, l1, r, i, s1, v);
        return;
      }
    }
    assert s1[..l1] == s1;
  }

  lemma AddStep(b: Base, r: seq<nat>, c: nat, s1: seq<nat>, s2: seq<nat>, i: nat)
    requires i < |s1| && i < |s2| && i == |r| && c <= 1 && s1[i] < b && s2[i] < b
    requires Carried(b, r, c, Value(b, s1[..i]) + Value(b, s2[..i]))
    ensures var x := c + s1[i] + s2[i];
      x < b * b && High(b, x) <= 1
      && Carried(b, r + [Low(b, x)], High(b, x), Value(b, s1[..i + 1]) + Value(b, s2[..i + 1]))
  {
    SumCarry(b, c + s1[i] + s2[i]);
    PrefixStep(b, s1, i);
    PrefixStep(b, s2, i);
    CarryStep(b, r, c, Value(b, s1[..i]) + Value(b, s2[..i]), s1[i] + s2[i]);
    assert (s1[i] + s2[i]) * Pow(b, i) == s1[i] * Pow(b, i) + s2[i] * Pow(b, i);
  }

  lemma AddTailStep(b: Base, r: seq<nat>, c: nat, s1: seq<nat>, v: int, i: nat)
    requires i < |s1| && i == |r| && c <= 1 && s1[i] < b
    requires Carried(b, r, c, Value(b, s1[..i]) + v)
    ensures var x := c + s1[i];
      x < b * b && High(b, x) <= 1 && Carried(b, r + [Low(b, x)], High(b, x), Value(b, s1[..i + 1]) + v)
  {
    SumCarry(b, c + s1[i]);
    PrefixStep(b, s1, i);
    CarryStep(b, r, c, Value(b, s1[..i]) + v, s1[i]);
  }

  /** The `copy:` exit shared by addition and subtraction: nothing is carried any more, so the
      rest of the longer operand is the rest of the result. */
  method CopyTail(b: Base, d1: array<nat>, l1: nat, r: array<nat>, start: nat, ghost s1: seq<nat>, ghost v: int)
    requires start <= l1 <= d1.Length && l1 <= r.Length && |s1| == l1 && AllDigits(b, s1)
    requires forall k :: start <= k < l1 ==> d1[k] == s1[k]
    requires Carried(b, r[..start], 0, Value(b, s1[..start]) + v)
    modifies r
    ensures Carried(b, r[..l1], 0, Value(b, s1) + v)
    ensures forall k :: l1 <= k < r.Length ==> r[k] == old(r[k])
  {
    var i := start;
    if r != d1 {
      while i < l1
        invariant start <= i <= l1
        invariant r[..start] == old(r[..start])
        invariant forall k :: start <= k < i ==> r[k] == s1[k]
        invariant forall k :: l1 <= k < r.Length ==> r[k] == old(r[k])
      {
        r[i] := d1[i];
        i := i + 1;
      }
    }
    ghost var t := r[..l1];
    assert t[..start] == old(r[..start]);
    assert t[start..] == s1[start..];
    ValueSplit(b, t, start);
    ValueSplit(b, s1, start);
  }

  /** Subtracts the second digit string from the first, which is at least as long; `r` may be
      the array of either operand. A negative difference wraps at the length of the first. */
  method DigitSub(b: Base, d1: array<nat>, l1: nat, d2: array<nat>, l2: nat, r: array<nat>)
    requires l2 <= l1 <= d1.Length && l2 <= d2.Length && l1 <= r.Length
    requires AllDigits(b, d1[..l1]) && AllDigits(b, d2[..l2])
    modifies r
    ensures AllDigits(b, r[..l1])
    ensures var x, y := Value(b, old(d1[..l1])), Value(b, old(d2[..l2]));
      Value(b, r[..l1]) == if x >= y then x - y else x - y + Pow(b, l1)
    ensures r[l1..] == old(r[l1..])
  {
    hide Value, Pow;
    ghost var s1, s2 := d1[..l1], d2[..l2];
    var c: nat := 1;
    var i := 0;
    BaseCases(b);
    assert r[..0] == [] && s1[..0] == [] && s2[..0] == [];
    while i < l2
      invariant 0 <= i <= l2 && c <= 1
      invariant forall k :: i <= k < r.Length ==> r[k] == old(r[k])
      invariant Carried(b, r[..i], c, Value(b, s1[..i]) - Value(b, s2[..i]) + Pow(b, i))
    {
      assert d1[i] == s1[i] && d2[i] == s2[i];
      SubStep(b, r[..i], c, s1, s2, i);
      ghost var was := r[..i];
      c := Two(b, c + d1[i] + (b - 1) - d2[i]);
      r[i] := Low(b, c);
      assert r[..i + 1] == was + [Low(b, c)];
      i := i + 1;
      c := High(b, c);
    }
    assert s2[..l2] == s2;
    SubTail(b, d1, l1, r, i, c, s1, Value(b, s2));
  }

  /** The second loop of the subtraction: propagates the borrow through the longer operand and
      copies the rest as soon as nothing is borrowed. */
  method SubTail(b: Base, d1: array<nat>, l1: nat, r: array<nat>, start: nat, c0: nat, ghost s1: seq<nat>, ghost v: int)
    requires start <= l1 <= d1.Length && l1 <= r.Length && |s1| == l1 && AllDigits(b, s1)
    requires forall k :: start <= k < l1 ==> d1[k] == s1[k]
    requires c0 <= 1 && v >= 0 && Carried(b, r[..start], c0, Value(b, s1[..start]) - v + Pow(b, start))
    modifies r
    ensures AllDigits(b, r[..l1])
    ensures var x := Value(b, s1);
      Value(b, r[..l1]) == if x >= v then x - v else x - v + Pow(b, l1)
    ensures forall k :: l1 <= k < r.Length ==> r[k] == old(r[k])
  {
    var c := c0;
    var i := start;
    while i < l1
      invariant start <= i <= l1 && c <= 1
      invariant forall k :: i <= k < r.Length ==> r[k] == old(r[k])
      invariant Carried(b, r[..i], c, Value(b, s1[..i]) - v + Pow(b, i))
    {
      if c != 0 {
        CopyTail(b, d1, l1, r, i, s1, 0 - v);
        SubResult(b, r[..l1], true, c, s1, v);
        return;
      }
      assert d1[i] == s1[i];
      SubTailStep(b, r[..i], c, s1, v, i);
      ghost var was := r[..i];
      c := Two(b, d1[i] + (b - 1));
      r[i] := Low(b, c);
      assert r[..i + 1] == was + [Low(b, c)];
      i := i + 1;
      c := High(b, c);
    }
    assert s1[..l1] == s1;
    SubResult(b, r[..l1], false, c, s1, v);
  }

  // After the copy exit nothing is borrowed; otherwise the last borrow tells the sign.
  lemma SubResult(b: Base, r: seq<nat>, copied: bool, c: nat, s1: seq<nat>, v: int)
    requires |r| == |s1| && AllDigits(b, s1) && c <= 1 && v >= 0
    requires if copied then Carried(b, r, 0, Value(b, s1) - v)
             else Carried(b, r, c, Value(b, s1) - v + Pow(b, |r|))
    ensures AllDigits(b, r)
    ensures Value(b, r) == if Value(b, s1) >= v then Value(b, s1) - v else Value(b, s1) - v + Pow(b, |r|)
  {
    ValueBound(b, r);
    ValueBound(b, s1);
    assert c == 0 || c == 1;
  }

  lemma SubStep(b: Base, r: seq<nat>, c: nat, s1: seq<nat>, s2: seq<nat>, i: nat)
    requires i < |s1| && i < |s2| && i == |r| && c <= 1 && s1[i] < b && s2[i] < b
    requires Carried(b, r, c, Value(b, s1[..i]) - Value(b, s2[..i]) + Pow(b, i))
    ensures var x := c + s1[i] + (b - 1) - s2[i];
      0 <= x < b * b && High(b, x) <= 1
      && Carried(b, r + [Low(b, x)], High(b, x), Value(b, s1[..i + 1]) - Value(b, s2[..i + 1]) + Pow(b, i + 1))
  {
    var e := s1[i] + (b - 1) - s2[i];
    SumCarry(b, c + e);
    PrefixStep(b, s1, i);
    PrefixStep(b, s2, i);
    CarryStep(b, r, c, Value(b, s1[..i]) - Value(b, s2[..i]) + Pow(b, i), e);
    BorrowAlgebra(b, Pow(b, i), s1[i], s2[i]);
  }

  lemma SubTailStep(b: Base, r: seq<nat>, c: nat, s1: seq<nat>, v: int, i: nat)
    requires i < |s1| && i == |r| && c == 0 && s1[i] < b
    requires Carried(b, r, c, Value(b, s1[..i]) - v + Pow(b, i))
    ensures var x := s1[i] + (b - 1);
      0 <= x < b * b && High(b, x) <= 1
      && Carried(b, r + [Low(b, x)], High(b, x), Value(b, s1[..i + 1]) - v + Pow(b, i + 1))
  {
    SumCarry(b, s1[i] + (b - 1));
    PrefixStep(b, s1, i);
    CarryStep(b, r, c, Value(b, s1[..i]) - v + Pow(b, i), s1[i] + (b - 1));
    BorrowAlgebra(b, Pow(b, i), s1[i], 0);
  }

  lemma BorrowAlgebra(b: int, p: int, d1: int, d2: int)
    ensures (d1 + (b - 1) - d2) * p == d1 * p - d2 * p + b * p - p
  {}

  /** Multiplies a digit string by one digit, in place; returns the overflowing digit. */
  method DigitMulSingle(b: Base, a: array<nat>, l: nat, d: nat) returns (carry: nat)
    requires l <= a.Length && AllDigits(b, a[..l]) && d < b
    modifies a
    ensures carry < b
    ensures Carried(b, a[..l], carry, d * Value(b, old(a[..l])))
    ensures a[l..] == old(a[l..])
  {
    ghost var s := a[..l];
    var p: nat := 0;
    var i := 0;
    while i < l
      invariant 0 <= i <= l && p < b
      invariant forall k :: i <= k < a.Length ==> a[k] == old(a[k])
      invariant Carried(b, a[..i], p, d * Value(b, s[..i]))
    {
      assert a[i] == s[i];
      MulStep(b, a[..i], p, d, s, i);
      ghost var was := a[..i];
      p := Two(b, p + d * a[i]);
      a[i] := Low(b, p);
      assert a[..i + 1] == was + [Low(b, p)];
      i := i + 1;
      p := High(b, p);
    }
    assert s[..l] == s;
    return p;
  }

  lemma MulStep(b: Base, r: seq<nat>, p: nat, d: nat, s: seq<nat>, i: nat)
    requires i < |s| && i == |r| && p < b && d < b && s[i] < b
    requires Carried(b, r, p, d * Value(b, s[..i]))
    ensures var x := p + d * s[i];
      0 <= x < b * b && High(b, x) < b && Carried(b, r + [Low(b, x)], High(b, x), d * Value(b, s[..i + 1]))
  {
    ProductFits(b, d, s[i], p);
    CarryFits(b, p + d * s[i]);
    PrefixStep(b, s, i);
    CarryStep(b, r, p, d * Value(b, s[..i]), d * s[i]);
    Distribute(d, Value(b, s[..i]), s[i], Pow(b, i));
  }

  /** Multiplies two digit strings into a third array. */
  method DigitMul(b: Base, x: array<nat>, la: nat, y: array<nat>, lb: nat, r: array<nat>)
    requires la <= x.Length && lb <= y.Length && la + lb <= r.Length
    requires r != x && r != y
    requires AllDigits(b, x[..la]) && AllDigits(b, y[..lb])
    modifies r
    ensures AllDigits(b, r[..la + lb])
    ensures Value(b, r[..la + lb]) == Value(b, x[..la]) * Value(b, y[..lb])
  {
    hide Value, Pow;
    forall k | 0 <= k < la + lb {
      r[k] := 0;
    }
    ghost var s, t := x[..la], y[..lb];
    var i := 0;
    BaseCases(b);
    ValueZeros(b, r[..lb]);
    assert s[..0] == [] && 0 * Value(b, t) == 0;
    while i < la
      invariant 0 <= i <= la
      invariant AllDigits(b, r[..i + lb])
      invariant Value(b, r[..i + lb]) == Value(b, s[..i]) * Value(b, t)
    {
      assert s[i] == x[i] && y[..lb] == t;
      MulRow(b, x[i], y, lb, r, i);
      PrefixStep(b, s, i);
      RowAdds(Value(b, s[..i]), s[i], Pow(b, i), Value(b, t));
      i := i + 1;
    }
    assert s[..la] == s;
  }

  lemma RowAdds(v: int, d: int, p: int, t: int)
    ensures (v + d * p) * t == v * t + (d * t) * p
  {}

  /** The inner loop: adds `d` times y into the window of r that starts at digit `o`, and
      stores the last carry above it. The accumulation tops out at exactly b * b - 1. */
  method MulRow(b: Base, d: nat, y: array<nat>, lb: nat, r: array<nat>, o: nat)
    requires lb <= y.Length && o + lb < r.Length && r != y
    requires d < b && AllDigits(b, y[..lb])
    requires AllDigits(b, r[..o + lb])
    modifies r
    ensures AllDigits(b, r[..o + lb + 1])
    ensures Value(b, r[..o + lb + 1])
            == Value(b, old(r[..o + lb])) + (d * Value(b, y[..lb])) * Pow(b, o)
    ensures forall k :: o + lb < k < r.Length ==> r[k] == old(r[k])
  {
    hide Value, Pow, Low, High, RowState;
    ghost var was, t := r[..o + lb], y[..lb];
    var p: nat := 0;
    var j := 0;
    RowStart(b, was, d, t, o);
    assert was[..o] == r[..o + j];
    while j < lb
      invariant 0 <= j <= lb
      invariant forall k :: o + j <= k < r.Length ==> r[k] == old(r[k])
      invariant RowState(b, r[..o + j], p, d, was, t, o, j)
    {
      assert r[o + j] == was[o + j] && y[j] == t[j];
      ghost var pre := r[..o + j];
      RowStep(b, pre, p, d, was, t, o, j);
      p := Two(b, p + r[o + j] + d * y[j]);
      r[o + j] := Low(b, p);
      assert r[..o + j + 1] == pre + [Low(b, p)];
      p := High(b, p);
      j := j + 1;
    }
    ghost var pre := r[..o + lb];
    r[o + lb] := p;
    assert r[..o + lb + 1] == pre + [p];
    RowEnd(b, pre, p, d, was, t, o);
  }

  /** The row after j digits of it: what is written, and a carry that is a digit. */
  ghost predicate RowState(b: Base, r: seq<nat>, p: nat, d: nat, was: seq<nat>, t: seq<nat>, o: nat, j: nat) {
    && j <= |t| && |was| == o + |t| && |r| == o + j && p < b && d < b && AllDigits(b, was) && AllDigits(b, t)
    && Carried(b, r, p, Value(b, was[..o + j]) + (d * Value(b, t[..j])) * Pow(b, o))
  }

  lemma RowStart(b: Base, was: seq<nat>, d: nat, t: seq<nat>, o: nat)
    requires |was| == o + |t| && d < b && AllDigits(b, was) && AllDigits(b, t)
    ensures RowState(b, was[..o], 0, d, was, t, o, 0)
  {
    BaseCases(b);
    assert t[..0] == [];
    assert 0 * Pow(b, o) == 0 && d * 0 == 0;
  }

  lemma RowEnd(b: Base, r: seq<nat>, p: nat, d: nat, was: seq<nat>, t: seq<nat>, o: nat)
    requires RowState(b, r, p, d, was, t, o, |t|)
    ensures AllDigits(b, r + [p]) && Value(b, r + [p]) == Value(b, was) + (d * Value(b, t)) * Pow(b, o)
  {
    assert t[..|t|] == t && was[..o + |t|] == was;
    ValueSnoc(b, r, p);
  }

  lemma RowStep(b: Base, r: seq<nat>, p: nat, d: nat, was: seq<nat>, t: seq<nat>, o: nat, j: nat)
    requires RowState(b, r, p, d, was, t, o, j) && j < |t|
    ensures o + j < |was| && 0 <= p + was[o + j] + d * t[j] < b * b
    ensures var x: nat := p + was[o + j] + d * t[j];
      RowState(b, r + [Low(b, x)], High(b, x), d, was, t, o, j + 1)
  {
    var e := was[o + j] + d * t[j];
    ProductFits(b, d, t[j], p + was[o + j]);
    CarryFits(b, p + e);
    CarryStep(b, r, p, Value(b, was[..o + j]) + (d * Value(b, t[..j])) * Pow(b, o), e);
    PrefixStep(b, was, o + j);
    PrefixStep(b, t, j);
    PowAdd(b, o, j);
    RowAlgebra(d, Value(b, t[..j]), t[j], Pow(b, o), Pow(b, j), was[o + j]);
  }

  lemma RowAlgebra(d: int, v: int, e: int, po: int, pj: int, w: int)
    ensures (d * (v + e * pj)) * po + w * (po * pj) == (d * v) * po + (w + d * e) * (po * pj)
  {
    assert (d * (e * pj)) * po == (d * e) * (po * pj);
    assert d * (v + e * pj) == d * v + d * (e * pj);
    assert (d * v + d * (e * pj)) * po == (d * v) * po + (d * (e * pj)) * po;
  }

  /** Divides a digit string by one digit, in place; returns the remainder. */
  method DigitDivSingle(b: Base, a: array<nat>, l: nat, d: nat) returns (rem: nat)
    requires l <= a.Length && AllDigits(b, a[..l]) && 0 < d < b
    modifies a
    ensures AllDigits(b, a[..l])
    ensures Value(b, old(a[..l])) == Value(b, a[..l]) * d + rem && rem < d
    ensures a[l..] == old(a[l..])
  {
    ghost var s := a[..l];
    hide Value, Pow, Divided;
    DivideStart(b, d);
    assert s[l..] == [] && a[l..l] == [];
    var r: nat := 0;
    var i := l;
    while i > 0
      invariant 0 <= i <= l && r < d
      invariant forall k :: 0 <= k < i ==> a[k] == old(a[k])
      invariant forall k :: l <= k < a.Length ==> a[k] == old(a[k])
      invariant Divided(b, a[i..l], d, r, s[i..])
    {
      i := i - 1;
      assert a[i] == s[i] && s[i..] == [s[i]] + s[i + 1..];
      DivideStep(b, a[i + 1..l], d, r, s[i + 1..], s[i]);
      ghost var was := a[i + 1..l];
      r := Two(b, r * b + a[i]);
      a[i] := Quot(r, d);
      assert a[i..l] == [Quot(r, d)] + was;
      r := Rem(r, d);
    }
    assert s[0..] == s && a[0..l] == a[..l];
    DivideEnd(b, a[..l], d, r, s);
    return r;
  }

  // The digits already divided: quotient q and remainder r of s by d.
  ghost predicate Divided(b: Base, q: seq<nat>, d: nat, r: nat, s: seq<nat>) {
    AllDigits(b, q) && Value(b, s) == Value(b, q) * d + r
  }

  lemma DivideStart(b: Base, d: nat)
    ensures Divided(b, [], d, 0, [])
  {}

  lemma DivideEnd(b: Base, q: seq<nat>, d: nat, r: nat, s: seq<nat>)
    requires Divided(b, q, d, r, s)
    ensures AllDigits(b, q) && Value(b, s) == Value(b, q) * d + r
  {}

  lemma DivideStep(b: Base, q: seq<nat>, d: nat, r: nat, s: seq<nat>, e: nat)
    requires Divided(b, q, d, r, s) && r < d < b && e < b
    ensures 0 <= r * b + e < b * b
    ensures var x := r * b + e; Divided(b, [Quot(x, d)] + q, d, Rem(x, d), [e] + s)
  {
    MulLess(b, r, d);
    MulAtLeast(b, d, b);
    var x: nat := r * b + e;
    MulCommutes(b, d);
    DivBound(x, d, b);
    QuotRem(x, d);
    assert ([Quot(x, d)] + q)[1..] == q && ([e] + s)[1..] == s;
    DivideAlgebra(b, d, Value(b, q), r, e, Quot(x, d), Rem(x, d));
  }

  lemma DivideAlgebra(b: int, d: int, v: int, r: int, e: int, q: int, m: int)
    requires r * b + e == q * d + m
    ensures e + b * (v * d + r) == (q + b * v) * d + m
  {
    assert b * (v * d + r) == (b * v) * d + r * b;
    assert (q + b * v) * d == q * d + (b * v) * d;
  }
}
