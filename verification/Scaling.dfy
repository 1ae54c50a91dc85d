/** The scaling that precedes long division: both operands are multiplied by one digit so that
    the divisor's top digit becomes at least half the base, which leaves the quotient alone and
    multiplies the remainder. */
module Scaling {
  import opened Powers
  import opened DigitValue
  import opened DigitStrings

  /** The scale for a divisor whose top digit is `top`. */
  function ScaleFor(b: Base, top: nat): nat {
    Quot(b, 1 + top)
  }

  lemma ScaleIsDigit(b: Base, top: nat)
    requires 0 < top < b
    ensures 1 <= ScaleFor(b, top) < b
    ensures ScaleFor(b, top) * (1 + top) <= b < ScaleFor(b, top) * (1 + top) + (1 + top)
  {
    var s := ScaleFor(b, top);
    QuotRem(b, 1 + top);
    if s == 0 {
      MulAtLeast(1 + top, s, 0);
    }
    if s >= b {
      MulAtLeast(1 + top, b, s);
      MulAtLeast(b, 2, 1 + top);
    }
  }

  // The scaled top digit reaches half the base (rounded down).
  lemma ScaledTopIsLarge(b: Base, top: nat)
    requires 0 < top < b
    ensures 2 * (ScaleFor(b, top) * top) >= b - 1
  {
    var s := ScaleFor(b, top);
    ScaleIsDigit(b, top);
    assert (s - 1) * (top - 1) >= 0 by { MulAtLeast(top - 1, 0, s - 1); }
    assert (s - 1) * (top - 1) == s * top - s - top + 1;
    assert s * (1 + top) == s + s * top;
  }

  /** Scaling the divisor overflows no digit and normalises its top digit. */
  lemma ScaledDivisor(b: Base, y: seq<nat>, z: seq<nat>, carry: nat)
    requires y != [] && |z| == |y| && AllDigits(b, y) && y[|y| - 1] > 0
    requires Carried(b, z, carry, ScaleFor(b, y[|y| - 1]) * Value(b, y))
    ensures carry == 0 && Value(b, z) == ScaleFor(b, y[|y| - 1]) * Value(b, y)
    ensures z[|z| - 1] > 0 && 2 * z[|z| - 1] >= b - 1
  {
    var n, top := |y| - 1, y[|y| - 1];
    var s, p := ScaleFor(b, top), Pow(b, n);
    ScaleIsDigit(b, top);
    ScaledTopIsLarge(b, top);
    TopDigit(b, y);
    ScaledBounds(b, s, top, p, Value(b, y));
    ValueBound(b, z);
    if carry >= 1 {
      MulAtLeast(Pow(b, |y|), 1, carry);
    }
    assert carry == 0;
    TopDigit(b, z);
    if z[n] < s * top {
      MulAtLeast(p, z[n] + 1, s * top);
    }
  }

  lemma ScaledBounds(b: Base, s: nat, top: nat, p: nat, v: nat)
    requires top * p <= v < (top + 1) * p && 1 <= s && s * (1 + top) <= b
    ensures (s * top) * p <= s * v < b * p
    ensures top > 0 ==> s * top > 0
  {
    MulAtLeast(s, top * p, v);
    MulLess(s, v, (top + 1) * p);
    assert s * (top * p) == (s * top) * p;
    assert s * ((top + 1) * p) == (s * (1 + top)) * p;
    MulAtLeast(p, s * (1 + top), b);
    MulAtLeast(top, 1, s);
  }

  /** The quotient ignores the scale, the remainder carries it. */
  lemma ScaledDivision(x: nat, y: nat, s: nat)
    requires y > 0 && s > 0
    ensures s * y > 0 && Quot(s * x, s * y) == Quot(x, y)
    ensures Rem(s * x, s * y) == s * Rem(x, y)
  {
    MulLess(s, 0, y);
    QuotRem(x, y);
    var q, r := Quot(x, y), Rem(x, y);
    MulLess(s, r, y);
    assert s * (q * y + r) == q * (s * y) + s * r;
    assert s * r >= 0 by { MulAtLeast(s, 0, r); }
    QuotUnique(s * x, s * y, q, s * r);
  }

  /** How many digits the scaled dividend takes: those of its value, and a zero digit above them
      if its top digit is not below that of the scaled divisor. */
  ghost function ScaledLength(b: Base, s: seq<nat>, t: seq<nat>): (l: nat)
    requires s != [] && t != []
    ensures |s| <= l <= |s| + 2
  {
    var scale := ScaleFor(b, t[|t| - 1]);
    var n := if Scaled(b, s, scale) < Pow(b, |s|) then |s| else |s| + 1;
    if Digit(b, Scaled(b, s, scale), n - 1) >= Digit(b, Scaled(b, t, scale), |t| - 1) then n + 1 else n
  }

  ghost function Scaled(b: Base, s: seq<nat>, scale: nat): nat {
    scale * Value(b, s)
  }

  // What a number has from position k up: its top digit, if that is at k.
  ghost function Digit(b: Base, v: nat, k: nat): nat {
    Quot(v, Pow(b, k))
  }

  lemma TopDigitOf(b: Base, s: seq<nat>)
    requires s != [] && AllDigits(b, s)
    ensures Digit(b, Value(b, s), |s| - 1) == s[|s| - 1]
  {
    TopDigit(b, s);
    var t, p := s[|s| - 1], Pow(b, |s| - 1);
    assert (t + 1) * p == t * p + p;
    QuotUnique(Value(b, s), p, t, Value(b, s) - t * p);
  }

  /** The scaling preamble of the division operators: scales the dividend a/al and the divisor
      y/yl in place, lets the dividend grow by the overflowing digit, and appends a zero digit
      where the top dividend digit could otherwise reach the top divisor digit. */
  method ScaleOperands(b: Base, a: array<nat>, al: nat, y: array<nat>, yl: nat, scale: nat) returns (l: nat)
    requires 1 <= yl <= al && al + 2 <= a.Length && yl <= y.Length && a != y
    requires AllDigits(b, a[..al]) && AllDigits(b, y[..yl]) && y[yl - 1] > 0
    requires scale == ScaleFor(b, y[yl - 1])
    modifies a, y
    ensures l == ScaledLength(b, old(a[..al]), old(y[..yl]))
    ensures AllDigits(b, a[..l]) && Value(b, a[..l]) == scale * Value(b, old(a[..al]))
    ensures AllDigits(b, y[..yl]) && Value(b, y[..yl]) == scale * Value(b, old(y[..yl]))
    ensures 0 < y[yl - 1] && 2 * y[yl - 1] >= b - 1
    ensures Value(b, a[l - yl..l]) < Value(b, y[..yl])
    ensures forall k :: al + 2 <= k < a.Length ==> a[k] == old(a[k])
  {
    ghost var s, t := a[..al], y[..yl];
    ScaleIsDigit(b, y[yl - 1]);
    if scale != 1 {
      l := ScaleUp(b, a, al, scale);
      var cy := DigitMulSingle(b, y, yl, scale);
      ScaledDivisor(b, t, y[..yl], cy);
    } else {
      l := al;
      UnitScale(b, s);
      UnitScale(b, t);
      ScaledDivisor(b, t, t, 0);
    }
    ValueBound(b, s);
    TopDigitOf(b, a[..l]);
    TopDigitOf(b, y[..yl]);
    l := AppendZero(b, a, l, y, yl);
  }

  lemma UnitScale(b: Base, s: seq<nat>)
    requires AllDigits(b, s)
    ensures 1 * Value(b, s) == Value(b, s) && Carried(b, s, 0, 1 * Value(b, s))
  {}

  method ScaleUp(b: Base, a: array<nat>, al: nat, scale: nat) returns (l: nat)
    requires al < a.Length && AllDigits(b, a[..al]) && scale < b
    modifies a
    ensures l == if scale * Value(b, old(a[..al])) < Pow(b, al) then al else al + 1
    ensures AllDigits(b, a[..l]) && Value(b, a[..l]) == scale * Value(b, old(a[..al]))
    ensures forall k :: al < k < a.Length ==> a[k] == old(a[k])
  {
    ghost var v := scale * Value(b, a[..al]);
    l := al;
    var c := DigitMulSingle(b, a, al, scale);
    ghost var low := a[..al];
    PlaceOverflow(b, low, c, v);
    a[al] := c;
    assert a[..al + 1] == low + [c] && a[..al] == low;
    if c != 0 {
      l := l + 1;
    }
  }

  method AppendZero(b: Base, a: array<nat>, al: nat, y: array<nat>, yl: nat) returns (l: nat)
    requires 1 <= yl <= al < a.Length && yl <= y.Length && a != y
    requires AllDigits(b, a[..al]) && AllDigits(b, y[..yl]) && y[yl - 1] > 0
    modifies a
    ensures l == if old(a[al - 1]) >= y[yl - 1] then al + 1 else al
    ensures AllDigits(b, a[..l]) && Value(b, a[..l]) == Value(b, old(a[..al]))
    ensures Value(b, a[l - yl..l]) < Value(b, y[..yl])
    ensures forall k :: al < k < a.Length ==> a[k] == old(a[k])
  {
    l := al;
    if a[l - 1] >= y[yl - 1] {
      ghost var low := a[..l];
      a[l] := 0;
      assert a[..l + 1] == low + [0];
      ValueSnoc(b, low, 0);
      l := l + 1;
    }
    assert a[l - yl..l] == a[..l][l - yl..];
    LowerTop(b, a[l - yl..l], y[..yl]);
  }

  lemma PlaceOverflow(b: Base, r: seq<nat>, c: nat, v: int)
    requires Carried(b, r, c, v) && c < b
    ensures AllDigits(b, r + [c]) && Value(b, r + [c]) == v
    ensures c == 0 ==> Value(b, r) == v
    ensures c == 0 <==> v < Pow(b, |r|)
  {
    ValueSnoc(b, r, c);
    ValueBound(b, r);
    if c != 0 {
      MulAtLeast(Pow(b, |r|), 1, c);
    }
  }

  lemma LowerTop(b: Base, s: seq<nat>, t: seq<nat>)
    requires |s| == |t| && s != [] && AllDigits(b, s) && AllDigits(b, t)
    requires s[|s| - 1] < t[|t| - 1]
    ensures Value(b, s) < Value(b, t)
  {
    DecidedAt(b, s, t, |s| - 1);
  }
}
