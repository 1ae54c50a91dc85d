/** Laws across several BigInt operations. */
module BigIntLaws {
  import opened Powers
  import opened DigitValue
  import opened IntDivision
  import opened RadixText
  import opened BigIntClass

  /** The binary operator `/`, on a copy of the dividend. */
  method Quotient(x: BigInt, y: BigInt) returns (q: BigInt, out: DivOutcome)
    requires x.Canonical() && y.Canonical() && x.layout == y.layout && y.Int() != 0
    ensures out == if x.ScaleWraps(y) then ScaleTrap else Done
    ensures fresh(q) && q.Canonical()
    ensures out == Done ==> q.Int() == TruncQuot(x.Int(), y.Int())
  {
    q := new BigInt.Copy(x);
    out := q.DivAssign(y);
  }

  /** The binary operator `%`, on a copy of the dividend. */
  method Remainder(x: BigInt, y: BigInt) returns (r: BigInt, out: DivOutcome)
    requires x.Canonical() && y.Canonical() && x.layout == y.layout && y.Int() != 0
    ensures out == if x.ScaleWraps(y) then ScaleTrap else Done
    ensures fresh(r) && r.Canonical()
    ensures out == Done ==> r.Int() == TruncRem(x.Int(), y.Int())
  {
    r := new BigInt.Copy(x);
    out := r.ModAssign(y);
  }

  /** Both operators together: unless the scale wraps, they give the one quotient and remainder
      of truncated division. */
  method DivideAndRemain(x: BigInt, y: BigInt) returns (q: BigInt, r: BigInt, out: DivOutcome)
    requires x.Canonical() && y.Canonical() && x.layout == y.layout && y.Int() != 0
    ensures out == if x.ScaleWraps(y) then ScaleTrap else Done
    ensures out == Done ==> q.Canonical() && r.Canonical()
    ensures out == Done ==> IsTruncatedDivision(x.Int(), y.Int(), q.Int(), r.Int())
  {
    q, out := Quotient(x, y);
    var out' := Done;
    r, out' := Remainder(x, y);
    if out == Done {
      TruncatedDivisionUnique(x.Int(), y.Int(), q.Int(), r.Int());
    }
  }

  /** Printing a canonical number into a field of `digits + 2` characters always succeeds, and
      scanning what was printed gives the same digits and sign. */
  method PrintThenScan(x: BigInt, radix: Radix) returns (y: BigInt)
    requires x.Canonical()
    ensures fresh(y) && y.layout == x.layout && y.Canonical()
    ensures y.Digits() == x.Digits() && y.positive == x.positive
  {
    var n := x.DigitsBound(radix);
    var p := new char[n + 2];
    var start := x.AsString(p, n + 2, radix);
    TextRoundTrip(x.Int(), radix);
    assert p[start..n + 1] == p[start..n + 2][..n + 1 - start] == Text(x.Int(), radix);
    y := new BigInt.FromText(x.layout, p[start..n + 1], radix);
    SameNumber(x, y);
  }

  lemma SameNumber(x: BigInt, y: BigInt)
    requires x.Canonical() && y.Canonical() && x.layout == y.layout && x.Int() == y.Int()
    ensures x.Digits() == y.Digits() && x.positive == y.positive
  {
    var b: Base := x.layout.Base();
    TrimmedZero(b, x.Digits());
    TrimmedZero(b, y.Digits());
    TrimmedUnique(b, x.Digits(), y.Digits());
  }

  /** Loading what was dumped restores the digits; the dump succeeds exactly if they fit. */
  method DumpThenLoad(x: BigInt, n: nat) returns (ok: bool, y: BigInt)
    requires x.Canonical()
    ensures ok <==> Abs(x.Int()) < Pow(256, n)
    ensures fresh(y) && y.layout == x.layout
    ensures ok ==> y.Canonical() && y.Digits() == x.Digits() && y.Int() == Abs(x.Int())
  {
    var p := new nat[n];
    y := new BigInt(x.layout);
    ok := x.Dump(p, n);
    if ok {
      y.Load(p, n);
      TrimmedZero(x.layout.Base(), y.Digits());
      TrimmedUnique(x.layout.Base(), x.Digits(), y.Digits());
    }
  }

  /** Canonical numbers of one layout are equal as integers exactly if they are the same digits
      and sign, which is what makes `compare` answer 0 only for equal objects. */
  lemma EqualExactlyIfSameDigits(x: BigInt, y: BigInt)
    requires x.Canonical() && y.Canonical() && x.layout == y.layout
    ensures x.Int() == y.Int() <==> x.Digits() == y.Digits() && x.positive == y.positive
  {
    if x.Int() == y.Int() {
      SameNumber(x, y);
    }
  }

  /** A minus sign before a character that is no digit leaves a negative zero ... */
  method ScanLeavesNegativeZero(layout: Layout) returns (x: BigInt)
    requires layout.Valid()
    ensures x.Valid() && x.Int() == 0 && !x.positive && !x.Canonical()
  {
    MinusStops();
    hide IsNumber, TextValue, ScanEnd, Minus, SignLength;
    x := new BigInt.FromText(layout, "-z", 10);
  }

  lemma MinusStops()
    ensures SignLength("-z") == 1 && Minus("-z") && !IsNumber("-z", 10)
    ensures ScanEnd("-z", 1, 10) == 1 && TextValue(0, "-z"[1..1], 10) == 0
  {
    ScanEndUnique("-z", 1, 10, 1);
    assert "-z"[1..][0] == 'z';
  }

  /** ... and a zero before one leaves a zero with a digit. */
  method ScanLeavesZeroDigit(layout: Layout) returns (x: BigInt)
    requires layout.Valid()
    ensures x.Valid() && x.Int() == 0 && x.positive && !x.Canonical()
  {
    ZeroStops();
    hide IsNumber, TextValue, ScanEnd, Minus, SignLength;
    x := new BigInt.FromText(layout, "0z", 10);
  }

  lemma ZeroStops()
    ensures SignLength("0z") == 0 && !Minus("0z") && !IsNumber("0z", 10)
    ensures ScanEnd("0z", 0, 10) == 1 && TextValue(0, "0z"[0..1], 10) == 0
  {
    ScanEndUnique("0z", 0, 10, 1);
    assert "0z"[0..][1] == 'z';
    assert "0z"[0..1][..0] == "";
  }

  // ---- Where the static division fails -----------------------------------------------------

  /** A new number from a word and a sign. */
  method FromWord(layout: Layout, ul: nat, negative: bool) returns (x: BigInt)
    requires layout.Valid() && ul < layout.WordModulus()
    ensures fresh(x) && fresh(x.digit) && x.layout == layout && x.Normal()
    ensures x.Int() == if negative then 0 - ul else ul
  {
    x := new BigInt(layout);
    x.Assign(ul);
    if negative {
      x.Negate();
    }
  }

  /** -5 over 5 into new objects: the equal case takes the sign that the quotient object has. */
  method DivEqualFails(layout: Layout)
    returns (x: BigInt, y: BigInt, q: BigInt, r: BigInt, out: DivOutcome)
    requires layout.Valid()
    ensures x.Normal() && y.Normal() && q.Normal() && r.Normal()
    ensures x.Int() == -5 && y.Int() == 5 && out == Done
    ensures !IsTruncatedDivision(x.Int(), y.Int(), q.Int(), r.Int())
  {
    hide Value, Pow, IsTruncatedDivision;
    SmallWord(layout);
    x := FromWord(layout, 5, true);
    y := FromWord(layout, 5, false);
    q := new BigInt(layout);
    r := new BigInt(layout);
    out := BigInt.Div(x, y, q, r);
  }

  /** The smallest number of more than a word over 3: the divisor is copied where the dividend is
      needed. */
  method DivLongFails(layout: Layout)
    returns (x: BigInt, y: BigInt, q: BigInt, r: BigInt, out: DivOutcome)
    requires layout.Valid()
    ensures x.Normal() && y.Normal() && q.Normal() && r.Normal()
    ensures x.Int() == layout.WordModulus() && y.Int() == 3 && out == Done
    ensures !IsTruncatedDivision(x.Int(), y.Int(), q.Int(), r.Int())
  {
    hide Value, Pow, IsTruncatedDivision;
    SmallWord(layout);
    x := PastWord(layout);
    y := FromWord(layout, 3, false);
    OneDigitLong(y);
    q := new BigInt(layout);
    r := new BigInt(layout);
    out := BigInt.Div(x, y, q, r);
  }

  /** The smallest number that a word does not hold. */
  method PastWord(layout: Layout) returns (x: BigInt)
    requires layout.Valid()
    ensures fresh(x) && fresh(x.digit) && x.layout == layout && x.Normal()
    ensures x.Int() == layout.WordModulus() && x.length > layout.small
  {
    x := PowerOfBase(layout, layout.small);
  }

  /** A one with n zero digits below it. */
  method PowerOfBase(layout: Layout, n: nat) returns (x: BigInt)
    requires layout.Valid()
    ensures fresh(x) && fresh(x.digit) && x.layout == layout && x.Normal()
    ensures x.Int() == Pow(layout.Base(), n) && x.length == n + 1 && x.digit[n] == 1
  {
    hide Value, Pow;
    x := new BigInt(layout);
    layout.BaseInBits();
    PowPow(2, 8 * layout.bytes, n);
    x.SetPower2(8 * layout.bytes * n);
    OneAndZeros(layout.Base(), x.Digits(), n);
  }

  lemma OneAndZeros(b: Base, s: seq<nat>, n: nat)
    requires AllDigits(b, s) && Trimmed(s) && Value(b, s) == Pow(b, n)
    ensures |s| == n + 1 && s[n] == 1
  {
    var t := seq(n, _ => 0);
    ValueZeros(b, t);
    ValueSnoc(b, t, 1);
    TrimmedUnique(b, s, t + [1]);
  }

  lemma SmallWord(layout: Layout)
    requires layout.Valid()
    ensures layout.WordModulus() >= 256
  {
    PowMonotone(layout.Base(), 1, layout.small);
    assert Pow(layout.Base(), 1) == layout.Base() * Pow(layout.Base(), 0);
  }

  lemma OneDigitLong(y: BigInt)
    requires y.Normal() && 0 < y.Magnitude() < 256
    ensures y.length == 1
  {
    var b: Base := y.layout.Base();
    if y.length > 1 {
      PowMonotone(b, 1, y.length - 1);
    }
    NonEmptyValue(b, y.Digits());
    NonZeroTop(b, y.Digits());
    assert Pow(b, 1) == b * Pow(b, 0) == b;
  }

  // ---- Calls that the code does not survive ------------------------------------------------

  /** The smallest number past a word over the largest word: the divisor's top digit plus one wraps
      to zero, wherever digits are as wide as the type that the sum is computed in. */
  method DivisionTraps(layout: Layout) returns (x: BigInt, y: BigInt, out: DivOutcome)
    requires layout.Valid() && !layout.promoted && layout.small >= 2
    ensures out == ScaleTrap
  {
    hide Value, Pow;
    SmallWord(layout);
    x := PastWord(layout);
    y := FromWord(layout, layout.WordModulus() - 1, false);
    LargestWord(y);
    out := x.DivAssign(y);
  }

  lemma LargestWord(y: BigInt)
    requires y.Normal() && y.Magnitude() == y.layout.WordModulus() - 1
    ensures y.length == y.layout.small && y.digit[y.length - 1] == y.layout.Base() - 1
  {
    var b: Base, n := y.layout.Base(), y.layout.small;
    SmallWord(y.layout);
    NonEmptyValue(b, y.Digits());
    NonZeroTop(b, y.Digits());
    TopDigit(b, y.Digits());
    assert Pow(b, n) == b * Pow(b, n - 1);
    hide Pow, Value;
    if y.length < n {
      PowMonotone(b, y.length, n - 1);
      MulAtLeast(Pow(b, n - 1), 2, b);
    } else if y.length > n {
      PowMonotone(b, n, y.length - 1);
    } else {
      var t, p := y.digit[n - 1], Pow(b, n - 1);
      assert (t + 2) * p == (t + 1) * p + p;
      if t + 1 < b {
        MulAtLeast(p, t + 2, b);
      }
    }
  }

  /** A number whose buffer is full, added to itself. */
  method AddingReadsFreed(layout: Layout) returns (x: BigInt, stale: bool)
    requires layout.Valid()
    ensures stale
  {
    hide Value, Pow;
    x := new BigInt(layout);
    ghost var buffer := x.digit;
    while x.length < layout.small + 1
      invariant x.Valid() && fresh(x) && fresh(x.digit) && x.layout == layout && x.digit == buffer
      invariant x.length <= layout.small + 1 == x.digit.Length
      invariant forall k :: 0 <= k < x.length ==> x.Digits()[k] == 1
    {
      x.Append(1);
    }
    stale := x.AddAssign(x);
  }

  /** Whatever room the quotient object has: a power of the base too long for it, over the smallest
      number past a word. */
  method DividingOverReads(q: BigInt, r: BigInt) returns (x: BigInt, y: BigInt, out: DivOutcome)
    requires q.Valid() && r.Valid() && q.layout == r.layout && q != r && q.digit != r.digit
    modifies q, r, q.digit, r.digit
    ensures out == OverRead
  {
    hide Value, Pow, IsTruncatedDivision, BigInt.DivIdentity, BigInt.ResultsTooSmall, Scaling.ScaledLength;
    var small := q.layout.small;
    x := PowerOfBase(q.layout, q.digit.Length + small + 1);
    y := PowerOfBase(q.layout, small);
    TooLong(x, y, q, r);
    out := BigInt.Div(x, y, q, r);
  }

  lemma TooLong(x: BigInt, y: BigInt, q: BigInt, r: BigInt)
    requires x.Normal() && y.Normal() && q.Valid() && x.layout == y.layout == q.layout
    requires y.length == x.layout.small + 1 && y.digit[y.length - 1] == 1
    requires x.length == y.length + q.digit.Length + 1
    requires x.Int() == Pow(x.layout.Base(), x.length - 1) && y.Int() == Pow(x.layout.Base(), y.length - 1)
    ensures BigInt.ResultsTooSmall(x, y, q, r)
  {
    PowMonotone(x.layout.Base(), y.length - 1, x.length - 1);
  }
}
