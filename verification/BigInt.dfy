/** The class BigInt of src/big-int: signed magnitude over a digit buffer that the methods
    change in place. Its meaning is the integer `Int()`. */
module BigIntClass {
  import opened Powers
  import opened DigitValue
  import opened DigitStrings
  import opened LongDivision
  import opened Scaling
  import opened IntDivision
  import opened RadixText

  /** How the digit types were chosen (bigint.hh): the bytes of a digit, the number of digits a
      `ullong_t` holds, and whether a digit plus one is computed in a wider type, as integer
      promotion does for digits narrower than `int`, or wraps like `unsigned`. */
  datatype Layout = Layout(bytes: nat, small: nat, promoted: bool) {
    ghost predicate Valid() {
      bytes >= 1 && small >= 1
    }

    /** One more than the largest `ullong_t`. */
    function WordModulus(): (m: nat)
      ensures m >= 1
    {
      if bytes >= 1 then Pow(Base(), small) else 1
    }

    /** `1 + top`, in the type in which the compiler computes it. */
    function ScaleDenominator(top: nat): nat
      requires bytes >= 1
    {
      if promoted then 1 + top else Low(Base(), 1 + top)
    }

    /** Half the word: digits are made of whole bytes, so it is a whole top digit. */
    lemma HalfWord()
      requires Valid()
      ensures 2 * Quot(Base(), 2) == Base()
      ensures WordModulus() == 2 * (Quot(Base(), 2) * Pow(Base(), small - 1))
      ensures Quot(WordModulus(), 2) == Quot(Base(), 2) * Pow(Base(), small - 1)
    {
      var p, w := Pow(256, bytes - 1), Pow(Base(), small - 1);
      assert Base() == 256 * p;
      QuotUnique(Base(), 2, 128 * p, 0);
      MulAssoc(2, 128 * p, w);
      QuotUnique(WordModulus(), 2, (128 * p) * w, 0);
    }

    /** Digits counted in bits. */
    lemma BaseInBits()
      requires bytes >= 1
      ensures Base() == Pow(2, 8 * bytes)
    {
      assert Pow(2, 4) == 16 by { assert Pow(2, 2) == 4; }
      assert Pow(2, 8) == 256 by { PowAdd(2, 4, 4); }
      PowPow(2, 8, bytes);
    }

    /** The digit configuration of 64-bit GNU compilers wraps; the one with 16-bit digits, whose
        arithmetic is done in `int`, does not. */
    static lemma WideDigitsWrap()
      ensures Layout(4, 2, false).ScaleDenominator(0xFFFF_FFFF) == 0
      ensures Layout(2, 4, true).ScaleDenominator(0xFFFF) == 0x1_0000
    {
      var p := Pow(256, 2);
      assert Pow(256, 0) == 1 && Pow(256, 1) == 256 && p == 0x1_0000;
      assert Pow(256, 3) == 256 * p && Pow(256, 4) == 256 * Pow(256, 3);
      assert Layout(4, 2, false).Base() == 0x1_0000_0000;
      Layout(4, 2, false).ScaleDenominatorZero(0xFFFF_FFFF);
    }

    lemma ScaleDenominatorZero(top: nat)
      requires bytes >= 1 && top < Base()
      ensures ScaleDenominator(top) == 0 <==> !promoted && top == Base() - 1
      ensures ScaleDenominator(top) != 0 ==> ScaleDenominator(top) == 1 + top
    {
      var b: Base := Base();
      if top == b - 1 {
        DivUnique(1 + top, b, 1, 0);
      } else {
        DivUnique(1 + top, b, 0, 1 + top);
      }
    }

    /** One more than the largest digit. */
    function Base(): (b: nat)
      ensures bytes >= 1 ==> b >= 256
    {
      if bytes >= 1 then
        PowMonotone(256, 1, bytes);
        assert Pow(256, 1) == 256 * Pow(256, 0);
        Pow(256, bytes)
      else
        1
    }
  }

  /** How a division ends: with a result, with the reported division by zero, by dividing by the
      scale's denominator when that wrapped around to zero, or, for the static division, by reading
      past the end of a result's buffer when that is exchanged for a larger one. */
  datatype DivOutcome = Done | DivisionByZero | ScaleTrap | OverRead

  lemma EmptyValue(b: nat, s: seq<nat>)
    requires s == []
    ensures Value(b, s) == 0
  {}

  lemma NonEmptyValue(b: nat, s: seq<nat>)
    requires Value(b, s) > 0
    ensures |s| > 0
  {}

  class BigInt {
    const layout: Layout
    var length: nat
    var digit: array<nat>
    var positive: bool

    ghost predicate Valid()
      reads this, digit
    {
      && layout.Valid()
      && length <= digit.Length && layout.small < digit.Length
      && AllDigits(layout.Base(), digit[..length])
    }

    ghost function Digits(): (s: seq<nat>)
      requires length <= digit.Length
      reads this, digit
    {
      digit[..length]
    }

    ghost function Magnitude(): nat
      requires length <= digit.Length
      reads this, digit
    {
      Value(layout.Base(), Digits())
    }

    /** The integer this object stands for. */
    ghost function Int(): int
      requires length <= digit.Length
      reads this, digit
    {
      Signed(positive, Magnitude())
    }

    /** Valid and without superfluous top digits: what every operation keeps. */
    ghost predicate Normal()
      reads this, digit
    {
      Valid() && Trimmed(Digits())
    }

    /** Normal, and zero is positive. */
    ghost predicate Canonical()
      reads this, digit
    {
      Normal() && (length == 0 ==> positive)
    }

    constructor (layout: Layout)
      requires layout.Valid()
      ensures this.layout == layout && fresh(digit) && digit.Length == layout.small + 1
      ensures Canonical() && Int() == 0 && length == 0
    {
      this.layout := layout;
      length := 0;
      digit := new nat[layout.small + 1];
      positive := true;
    }

    constructor Copy(y: BigInt)
      requires y.Valid()
      ensures layout == y.layout && fresh(digit)
      ensures Valid() && Digits() == y.Digits() && positive == y.positive
    {
      layout := y.layout;
      length := y.length;
      positive := y.positive;
      digit := new nat[if y.length <= y.layout.small then y.layout.small + 1 else y.length];
      new;
      forall k | 0 <= k < y.length {
        digit[k] := y.digit[k];
      }
      assert Digits() == y.Digits();
    }

    /** Makes room for n digits; the used digits are kept. */
    method Resize(n: nat)
      requires Valid()
      modifies this
      ensures Valid() && n <= digit.Length
      ensures length == old(length) && positive == old(positive)
      ensures Digits() == old(Digits())
      ensures digit == old(digit) || fresh(digit)
      ensures n <= old(digit.Length) ==> digit == old(digit)
    {
      if n > digit.Length {
        var wider := new nat[n];
        forall k | 0 <= k < length {
          wider[k] := digit[k];
        }
        assert wider[..length] == digit[..length];
        digit := wider;
      }
    }

    /** Makes room for n digits of a new value; nothing is kept, so the used length is zero. */
    method Reallocate(n: nat)
      requires Valid()
      modifies this
      ensures Valid() && n <= digit.Length && length == 0 && positive == old(positive)
      ensures digit == old(digit) || fresh(digit)
      ensures n <= old(digit.Length) ==> digit == old(digit)
    {
      length := 0;
      if n > digit.Length {
        digit := new nat[n];
      }
    }

    /** Drops zero top digits; a zero becomes positive. */
    method Adjust()
      requires Valid()
      modifies this
      ensures digit == old(digit)
      ensures Normal() && Magnitude() == old(Magnitude())
      ensures length == 0 ==> positive
      ensures length > 0 ==> positive == old(positive)
    {
      ghost var b, s := layout.Base(), Digits();
      while true
        invariant length <= |s| && digit == old(digit) && positive == old(positive)
        invariant digit[..|s|] == s
        invariant forall k :: length <= k < |s| ==> s[k] == 0
        decreases length
      {
        if length == 0 {
          positive := true;
          break;
        }
        if digit[length - 1] != 0 {
          break;
        }
        length := length - 1;
      }
      LeadingZeros(b, s, length);
      assert Digits() == s[..length];
    }

    /** Appends an overflowing digit. */
    method Append(c: nat)
      requires Valid() && c < layout.Base()
      modifies this, digit
      ensures Valid() && Digits() == old(Digits()) + [c] && positive == old(positive)
      ensures digit == old(digit) || fresh(digit)
      ensures digit == old(digit) ==> forall k :: old(length) < k < digit.Length ==> digit[k] == old(digit[k])
      ensures old(length) < old(digit.Length) ==> digit == old(digit)
    {
      Resize(length + 1);
      ghost var s := Digits();
      digit[length] := c;
      length := length + 1;
      assert Digits() == s + [c];
    }

    /** Adds the digit string dig/len, counted positive or negative. The string may be this
        object's own digits. If then the buffer has to grow, the code goes on to read the one it
        has freed: that is answered by `stale`, and nothing is added. */
    method Add(dig: array<nat>, len: nat, pos: bool) returns (stale: bool)
      requires Normal()
      requires len <= dig.Length && AllDigits(layout.Base(), dig[..len]) && Trimmed(dig[..len])
      modifies this, digit
      ensures Normal() && (digit == old(digit) || fresh(digit))
      ensures stale <==> dig == old(digit) && dig.Length <= if len < old(length) then old(length) else len
      ensures Int() == if stale then old(Int()) else old(Int()) + Signed(pos, Value(layout.Base(), old(dig[..len])))
      ensures old(Canonical()) ==> Canonical()
    {
      hide Value, Pow;
      stale := dig == digit && digit.Length <= if length > len then length else len;
      ghost var b, s, t := layout.Base(), Digits(), dig[..len];
      Resize((if length > len then length else len) + 1);
      if stale {
        return;
      }
      var gt := MagnitudeAtLeast(dig, len);
      TrimmedZero(b, s);
      TrimmedZero(b, t);
      if positive == pos {
        AddMagnitude(dig, len, gt);
      } else {
        SubtractMagnitude(dig, len, pos, gt);
      }
      TrimmedZero(b, Digits());
    }

    /** Adds a magnitude; `gt` says that this one is not the smaller. */
    method AddMagnitude(dig: array<nat>, len: nat, gt: bool)
      requires Normal() && len < digit.Length && length < digit.Length
      requires len <= dig.Length && AllDigits(layout.Base(), dig[..len]) && Trimmed(dig[..len])
      requires if gt then length >= len else len >= length
      modifies this, digit
      ensures Normal() && digit == old(digit) && positive == old(positive)
      ensures Magnitude() == old(Magnitude()) + Value(layout.Base(), old(dig[..len]))
    {
      if gt {
        AddInto(digit, length, dig, len);
      } else {
        AddInto(dig, len, digit, length);
      }
    }

    /** Takes the smaller of the two magnitudes from the other, whose sign the result has. */
    method SubtractMagnitude(dig: array<nat>, len: nat, pos: bool, gt: bool)
      requires Normal() && len < digit.Length && length < digit.Length && positive != pos
      requires len <= dig.Length && AllDigits(layout.Base(), dig[..len]) && Trimmed(dig[..len])
      requires gt <==> Magnitude() >= Value(layout.Base(), dig[..len])
      requires if gt then length >= len else len >= length
      modifies this, digit
      ensures Normal() && digit == old(digit)
      ensures Int() == old(Int()) + Signed(pos, Value(layout.Base(), old(dig[..len])))
      ensures length == 0 ==> positive
    {
      hide Value, Pow;
      if gt {
        SubtractInto(digit, length, dig, len);
      } else {
        SubtractInto(dig, len, digit, length);
        positive := pos;
      }
      Adjust();
      TrimmedZero(layout.Base(), Digits());
    }

    /** Whether the magnitude is at least that of a digit string, by length and then by digits;
        the one that is at least the other is not shorter. */
    method MagnitudeAtLeast(dig: array<nat>, len: nat) returns (gt: bool)
      requires Normal()
      requires len <= dig.Length && AllDigits(layout.Base(), dig[..len]) && Trimmed(dig[..len])
      ensures gt <==> Magnitude() >= Value(layout.Base(), dig[..len])
      ensures if gt then length >= len else len >= length
    {
      ghost var s, t := Digits(), dig[..len];
      gt := length > len;
      if length == len {
        var cmp := DigitCmp(layout.Base(), digit, 0, dig, 0, len);
        gt := cmp >= 0;
        assert digit[0..len] == s && dig[0..len] == t;
      }
      LargerByLength(layout.Base(), s, t);
    }

    // The magnitudes in the order in which their lengths, or their digits, put them.
    lemma LargerByLength(b: Base, s: seq<nat>, t: seq<nat>)
      requires AllDigits(b, s) && AllDigits(b, t) && Trimmed(s) && Trimmed(t)
      ensures |s| > |t| ==> Value(b, s) > Value(b, t)
      ensures |s| < |t| ==> Value(b, s) < Value(b, t)
    {
      if |s| > |t| {
        LongerIsLarger(b, t, s);
      } else if |s| < |t| {
        LongerIsLarger(b, s, t);
      }
    }

    /** Replaces the digits by the sum of two digit strings, the longer first. */
    method AddInto(d1: array<nat>, l1: nat, d2: array<nat>, l2: nat)
      requires Valid() && l2 <= l1 <= d1.Length && l2 <= d2.Length && l1 < digit.Length
      requires AllDigits(layout.Base(), d1[..l1]) && AllDigits(layout.Base(), d2[..l2]) && Trimmed(d1[..l1])
      modifies this, digit
      ensures Normal() && digit == old(digit) && positive == old(positive)
      ensures Magnitude() == Value(layout.Base(), old(d1[..l1])) + Value(layout.Base(), old(d2[..l2]))
    {
      ghost var b, s1, s2 := layout.Base(), d1[..l1], d2[..l2];
      var c := DigitAdd(layout.Base(), d1, l1, d2, l2, digit);
      length := l1;
      ghost var r := Digits();
      SumIsTrimmed(b, s1, Value(b, s2), r, c);
      if c != 0 {
        digit[length] := c;
        length := length + 1;
        assert Digits() == r + [c];
      }
    }

    lemma SumIsTrimmed(b: Base, s1: seq<nat>, v: nat, r: seq<nat>, c: nat)
      requires |r| == |s1| && AllDigits(b, s1) && Trimmed(s1) && c <= 1
      requires Carried(b, r, c, Value(b, s1) + v)
      ensures if c == 0 then Trimmed(r) && Value(b, r) == Value(b, s1) + v
              else AllDigits(b, r + [c]) && Value(b, r + [c]) == Value(b, s1) + v
    {
      ValueSnoc(b, r, c);
      if c == 0 && r != [] {
        NonZeroTop(b, s1);
        TopNonZero(b, r);
      }
    }

    /** Replaces the digits by the difference of two digit strings, the larger first. */
    method SubtractInto(d1: array<nat>, l1: nat, d2: array<nat>, l2: nat)
      requires Valid() && l2 <= l1 <= d1.Length && l2 <= d2.Length && l1 <= digit.Length
      requires AllDigits(layout.Base(), d1[..l1]) && AllDigits(layout.Base(), d2[..l2])
      requires Value(layout.Base(), d1[..l1]) >= Value(layout.Base(), d2[..l2])
      modifies this, digit
      ensures Valid() && digit == old(digit) && positive == old(positive)
      ensures Magnitude() == Value(layout.Base(), old(d1[..l1])) - Value(layout.Base(), old(d2[..l2]))
    {
      DigitSub(layout.Base(), d1, l1, d2, l2, digit);
      length := l1;
    }

    method SetZero()
      requires Valid()
      modifies this
      ensures Canonical() && Int() == 0 && length == 0 && digit == old(digit)
    {
      length := 0;
      positive := true;
    }

    /** Multiplies by the digit string dig/len, counted positive or negative. The string may be
        this object's own digits. The result is in canonical form unless a zero was multiplied
        by a negative one-digit number, which leaves a negative zero. */
    method Mul(dig: array<nat>, len: nat, pos: bool)
      requires Normal()
      requires len <= dig.Length && AllDigits(layout.Base(), dig[..len]) && Trimmed(dig[..len])
      requires dig == digit ==> len == length
      modifies this, digit
      ensures Normal() && (digit == old(digit) || fresh(digit))
      ensures Int() == old(Int()) * Signed(pos, Value(layout.Base(), old(dig[..len])))
      ensures old(Canonical()) ==> (Canonical() <==> !(old(length) == 0 && len == 1 && !pos))
    {
      ghost var b, s, t := layout.Base(), Digits(), dig[..len];
      TrimmedZero(b, s);
      TrimmedZero(b, t);
      SignedProduct(positive, Value(b, s), pos, Value(b, t));
      if len < 2 {
        if len == 0 || dig[0] == 0 {
          SetZero();
          return;
        }
        OneDigit(b, t);
        MulByDigit(dig[0]);
      } else if length < 2 {
        if length == 0 || digit[0] == 0 {
          SetZero();
          return;
        }
        OneDigit(b, s);
        var d := digit[0];
        TakeDigits(dig, len);
        MulByDigit(d);
      } else {
        MulLong(dig, len);
      }
      if !pos {
        positive := !positive;
      }
    }

    lemma OneDigit(b: nat, s: seq<nat>)
      requires |s| == 1
      ensures Value(b, s) == s[0]
    {
      assert s[1..] == [];
    }

    lemma SignedProduct(p: bool, x: nat, q: bool, y: nat)
      ensures Signed(p, x) * Signed(q, y) == Signed(p == q, x * y)
      ensures x * y == y * x && (x == 0 ==> x * y == 0) && (y == 0 ==> x * y == 0)
      ensures x > 0 && y > 0 ==> x * y > 0
    {
      if x > 0 && y > 0 {
        MulAtLeast(y, 1, x);
      }
      var a: int, c: int := x, y;
      assert (0 - a) * c == 0 - a * c && a * (0 - c) == 0 - a * c && (0 - a) * (0 - c) == a * c;
    }

    /** Multiplies the magnitude by a non-zero digit. */
    method MulByDigit(d: nat)
      requires Normal() && 0 < d < layout.Base()
      modifies this, digit
      ensures Normal() && (digit == old(digit) || fresh(digit)) && positive == old(positive)
      ensures Magnitude() == d * old(Magnitude())
      ensures old(length) <= length && (old(length) == 0 ==> length == 0)
    {
      ghost var b, s := layout.Base(), Digits();
      if d != 1 {
        var c := DigitMulSingle(layout.Base(), digit, length, d);
        ProductIsTrimmed(b, s, d, Digits(), c);
        if c != 0 {
          Append(c);
        }
      }
    }

    lemma ProductIsTrimmed(b: Base, s: seq<nat>, d: nat, r: seq<nat>, c: nat)
      requires |r| == |s| && AllDigits(b, s) && Trimmed(s) && 0 < d && c < b
      requires Carried(b, r, c, d * Value(b, s))
      ensures s == [] ==> c == 0
      ensures if c == 0 then Trimmed(r) && Value(b, r) == d * Value(b, s)
              else AllDigits(b, r + [c]) && Value(b, r + [c]) == d * Value(b, s)
    {
      ValueSnoc(b, r, c);
      if r == [] {
        assert d * 0 == 0;
        assert Pow(b, |r|) == 1;
      } else if c == 0 {
        NonZeroTop(b, s);
        MulAtLeast(Value(b, s), 1, d);
        TopNonZero(b, r);
      }
    }

    /** Takes over the digits of another string, with room for one more. */
    method TakeDigits(dig: array<nat>, len: nat)
      requires Valid() && dig != digit && 0 < len <= dig.Length
      requires AllDigits(layout.Base(), dig[..len]) && Trimmed(dig[..len])
      modifies this, digit
      ensures Normal() && (digit == old(digit) || fresh(digit)) && positive == old(positive)
      ensures Digits() == old(dig[..len])
    {
      ghost var s := dig[..len];
      Reallocate(len + 1);
      forall k | 0 <= k < len {
        digit[k] := dig[k];
      }
      length := len;
      assert Digits() == s;
    }

    /** The schoolbook product of two long operands, into a new buffer. */
    method MulLong(dig: array<nat>, len: nat)
      requires Normal() && length >= 2 && 2 <= len <= dig.Length
      requires AllDigits(layout.Base(), dig[..len]) && Trimmed(dig[..len])
      modifies this
      ensures Normal() && fresh(digit) && length > 0 && positive == old(positive)
      ensures Magnitude() == old(Magnitude()) * Value(layout.Base(), old(dig[..len]))
    {
      hide Value, Pow;
      ghost var b, s, t := layout.Base(), Digits(), dig[..len];
      var r := Product(dig, len);
      digit := r;
      length := length + len;
      TrimmedZero(b, s);
      TrimmedZero(b, t);
      SignedProduct(true, Value(b, s), true, Value(b, t));
      Adjust();
      NonEmptyValue(b, Digits());
    }

    /** The product in a buffer of its own, the longer factor last. */
    method Product(dig: array<nat>, len: nat) returns (r: array<nat>)
      requires Valid() && length >= 2 && 2 <= len <= dig.Length && AllDigits(layout.Base(), dig[..len])
      ensures fresh(r) && length + len <= r.Length && layout.small < r.Length
      ensures AllDigits(layout.Base(), r[..length + len])
      ensures Value(layout.Base(), r[..length + len]) == Magnitude() * Value(layout.Base(), dig[..len])
    {
      hide Value, Pow;
      var n := length + len;
      r := new nat[if n <= layout.small then layout.small + 1 else n];
      if length < len {
        DigitMul(layout.Base(), digit, length, dig, len, r);
        assert r[..n] == r[..length + len];
      } else {
        DigitMul(layout.Base(), dig, len, digit, length, r);
        assert r[..n] == r[..len + length];
      }
      MulCommutes(Magnitude(), Value(layout.Base(), dig[..len]));
    }

    method Negate()
      requires Valid()
      modifies this
      ensures digit == old(digit) && length == old(length)
      ensures Int() == -old(Int()) && Digits() == old(Digits())
      ensures length != 0 ==> positive == !old(positive)
      ensures old(Canonical()) ==> Canonical()
    {
      EmptyValue(layout.Base(), Digits()[..0]);
      assert length == 0 ==> Digits() == Digits()[..0];
      if length != 0 {
        positive := !positive;
      }
    }

    /** Two objects own two buffers, unless they are one object. */
    ghost predicate OwnsApart(y: BigInt)
      reads this, y
    {
      y.layout == layout && (y != this ==> y.digit != digit)
    }

    method AddAssign(y: BigInt) returns (stale: bool)
      requires Normal() && y.Normal() && OwnsApart(y)
      modifies this, digit
      ensures Normal() && (digit == old(digit) || fresh(digit))
      ensures stale <==> y == this && old(length) == old(digit).Length
      ensures Int() == if stale then old(Int()) else old(Int()) + old(y.Int())
      ensures old(Canonical()) ==> Canonical()
    {
      stale := Add(y.digit, y.length, y.positive);
    }

    method SubAssign(y: BigInt) returns (stale: bool)
      requires Normal() && y.Normal() && OwnsApart(y)
      modifies this, digit
      ensures Normal() && (digit == old(digit) || fresh(digit))
      ensures stale <==> y == this && old(length) == old(digit).Length
      ensures Int() == if stale then old(Int()) else old(Int()) - old(y.Int())
      ensures old(Canonical()) ==> Canonical()
    {
      stale := Add(y.digit, y.length, !y.positive);
    }

    method MulAssign(y: BigInt)
      requires Normal() && y.Normal() && OwnsApart(y)
      modifies this, digit
      ensures Normal() && (digit == old(digit) || fresh(digit))
      ensures Int() == old(Int()) * old(y.Int())
      ensures old(Canonical()) ==>
        (Canonical() <==> !(old(Int()) == 0 && old(y.length) == 1 && !old(y.positive)))
    {
      TrimmedZero(layout.Base(), Digits());
      Mul(y.digit, y.length, y.positive);
    }

    /** Stores an elementary unsigned integer as a digit string. */
    static method DigitSet(layout: Layout, ul: nat, d: array<nat>) returns (l: nat)
      requires layout.Valid() && ul < layout.WordModulus() && layout.small <= d.Length
      modifies d
      ensures l <= layout.small
      ensures AllDigits(layout.Base(), d[..l]) && Trimmed(d[..l])
      ensures Value(layout.Base(), d[..l]) == ul
    {
      ghost var b: Base := layout.Base();
      var u: nat := ul;
      l := 0;
      assert SetState(b, d[..0], u, ul, layout.small);
      if u != 0 {
        l, u := StoreDigit(layout, u, d, l, ul);
        if layout.small > 2 {
          while u != 0
            invariant 1 <= l <= layout.small && SetState(b, d[..l], u, ul, layout.small)
            decreases layout.small - l
          {
            l, u := StoreDigit(layout, u, d, l, ul);
          }
        } else if u != 0 {
          l, u := StoreDigit(layout, u, d, l, ul);
          assert u < Pow(b, 0);
        }
      }
    }

    // The digits stored so far, with u still to be stored above them.
    static ghost predicate SetState(b: Base, s: seq<nat>, u: nat, ul: nat, small: nat) {
      && |s| <= small && Carried(b, s, u, ul) && u < Pow(b, small - |s|)
      && (u == 0 ==> Trimmed(s))
    }

    static method StoreDigit(layout: Layout, u: nat, d: array<nat>, l: nat, ghost ul: nat) returns (l': nat, u': nat)
      requires layout.Valid() && layout.small <= d.Length && u != 0 && l <= layout.small
      requires SetState(layout.Base(), d[..l], u, ul, layout.small)
      modifies d
      ensures l' == l + 1 <= layout.small
      ensures SetState(layout.Base(), d[..l'], u', ul, layout.small)
    {
      hide SetState;
      ghost var s := d[..l];
      SetStep(layout.Base(), s, u, ul, layout.small);
      d[l] := Low(layout.Base(), u);
      l' := l + 1;
      u' := High(layout.Base(), u);
      assert d[..l'] == s + [d[l]];
    }

    static lemma SetStep(b: Base, s: seq<nat>, u: nat, ul: nat, small: nat)
      requires SetState(b, s, u, ul, small) && u != 0 && |s| <= small
      ensures |s| < small && SetState(b, s + [Low(b, u)], High(b, u), ul, small)
    {
      SetRoom(b, u, small - |s|);
      hide Value, Pow;
      CarryStep(b, s, u, ul, 0);
      LowHigh(b, u);
      DivBound(u, b, Pow(b, small - |s| - 1));
    }

    static lemma SetRoom(b: Base, u: nat, room: nat)
      requires 0 < u < Pow(b, room)
      ensures room > 0 && u < Pow(b, room - 1) * b
    {
      if room > 0 {
        MulCommutes(b, Pow(b, room - 1));
      }
    }

    /** The magnitude modulo the size of an elementary unsigned integer. */
    method ToUint64() returns (ul: nat)
      requires Valid()
      ensures ul == Rem(Magnitude(), layout.WordModulus())
      ensures length <= layout.small ==> ul == Magnitude() < layout.WordModulus()
    {
      ghost var b: Base, m := layout.Base(), layout.WordModulus();
      ghost var s := Digits();
      ul := 0;
      var i := length;
      QuotUnique(0, m, 0, 0);
      while i > 0
        invariant 0 <= i <= length
        invariant ul == Rem(Value(b, s[i..]), m)
      {
        i := i - 1;
        assert s[i] == digit[i] && s[i..] == [s[i]] + s[i + 1..];
        ShiftIn(b, layout.small, Value(b, s[i + 1..]), s[i]);
        ul := Rem(ul * layout.Base(), layout.WordModulus()) + digit[i];
      }
      assert s[0..] == s;
      if length <= layout.small {
        ValueBound(b, s);
        PowMonotone(b, length, layout.small);
        QuotUnique(Magnitude(), m, 0, Magnitude());
      }
    }

    // Shifting left by a digit and or-ing one in, modulo the word size.
    static lemma ShiftIn(b: Base, small: nat, v: nat, d: nat)
      requires small >= 1 && d < b
      ensures var m := Pow(b, small);
        Rem(Rem(v, m) * b, m) + d == Rem(d + b * v, m)
    {
      var w, m := Pow(b, small - 1), Pow(b, small);
      QuotRem(v, m);
      QuotRem(Rem(v, m), w);
      ShiftWord(b, w, m, v, d, Rem(v, m), Quot(Rem(v, m), w), Rem(Rem(v, m), w), Quot(v, m));
    }

    // With u == q * w + r, shifting u left drops q and leaves r * b, which has room for d.
    static lemma ShiftWord(b: Base, w: nat, m: nat, v: nat, d: nat, u: nat, q: nat, r: nat, k: nat)
      requires m == b * w && m > 0 && d < b && v == k * m + u && u == q * w + r && r < w
      ensures Rem(u * b, m) + d == Rem(d + b * v, m)
    {
      ShiftAlgebra(b, w, m, v, d, u, q, r, k);
      QuotUnique(u * b, m, q, r * b);
      QuotUnique(d + b * v, m, b * k + q, r * b + d);
    }

    static lemma ShiftAlgebra(b: Base, w: nat, m: nat, v: nat, d: nat, u: nat, q: nat, r: nat, k: nat)
      requires m == b * w && m > 0 && d < b && v == k * m + u && u == q * w + r && r < w
      ensures 0 <= r * b && r * b + d < m && u * b == q * m + r * b && b * k + q >= 0
      ensures d + b * v == (b * k + q) * m + (r * b + d)
    {
      MulAtLeast(b, r + 1, w);
      MulAtLeast(b, 0, r);
      MulAtLeast(b, 0, k);
      assert (r + 1) * b == r * b + b && w * b == b * w && b * k == k * b;
      assert (q * w + r) * b == q * (b * w) + r * b;
      assert b * (k * m + u) == (b * k) * m + u * b;
      assert (b * k + q) * m == (b * k) * m + q * m;
    }

    method UCompare(y: BigInt) returns (r: int)
      requires Normal() && y.Normal() && y.layout == layout
      ensures r == Order(Magnitude(), y.Magnitude())
      ensures r == 0 <==> Digits() == y.Digits()
    {
      ghost var b: Base, s, t := layout.Base(), Digits(), y.Digits();
      LargerByLength(b, s, t);
      if length < y.length {
        return -1;
      }
      if length > y.length {
        return 1;
      }
      r := DigitCmp(layout.Base(), digit, 0, y.digit, 0, length);
      assert digit[0..length] == s && y.digit[0..length] == t;
      if r == 0 {
        TrimmedUnique(b, s, t);
      }
    }

    /** The order of the integers. */
    method Compare(y: BigInt) returns (r: int)
      requires Canonical() && y.Canonical() && y.layout == layout
      ensures r == Order(Int(), y.Int())
    {
      TrimmedZero(layout.Base(), Digits());
      TrimmedZero(layout.Base(), y.Digits());
      if !positive && y.positive {
        return -1;
      }
      if positive && !y.positive {
        return 1;
      }
      r := UCompare(y);
      if !positive {
        r := -r;
      }
    }

    /** The order with respect to an elementary unsigned integer. */
    method CompareUnsigned(ul: nat) returns (r: int)
      requires Canonical() && ul < layout.WordModulus()
      ensures r == Order(Int(), ul)
    {
      TrimmedZero(layout.Base(), Digits());
      if !positive {
        return -1;
      }
      var dig := new nat[layout.small];
      var len := DigitSet(layout, ul, dig);
      LargerByLength(layout.Base(), Digits(), dig[..len]);
      if length < len {
        return -1;
      }
      if length > len {
        return 1;
      }
      r := DigitCmp(layout.Base(), digit, 0, dig, 0, len);
      assert digit[0..len] == Digits() && dig[0..len] == dig[..len];
    }

    /** Long division is entered and the divisor's top digit, plus one, wraps to zero. */
    ghost predicate ScaleWraps(y: BigInt)
      requires Valid() && y.Valid()
      reads this, digit, y, y.digit
    {
      && !layout.promoted && layout.small < length && 2 <= y.length
      && Magnitude() > y.Magnitude()
      && y.digit[y.length - 1] == layout.Base() - 1
    }

    /** `/=`. Zero divided by zero answers one; any other division by zero is reported; and the
        scale's denominator may wrap. Otherwise the result is the truncated quotient. */
    method DivAssign(y: BigInt) returns (out: DivOutcome)
      requires Normal() && y.Normal() && OwnsApart(y)
      modifies this, digit
      ensures Normal() && (digit == old(digit) || fresh(digit))
      ensures out == DivisionByZero <==> old(y.Int()) == 0 && old(Int()) != 0
      ensures out == ScaleTrap <==> old(ScaleWraps(y))
      ensures out != OverRead
      ensures out == Done && old(y.Int()) != 0 ==> Int() == TruncQuot(old(Int()), old(y.Int()))
      ensures old(y.Int()) == 0 && old(Canonical()) && old(Int()) == 0 && old(y.Canonical()) ==> Int() == 1
      ensures out != Done ==> Int() == old(Int())
      ensures old(Canonical()) ==> Canonical()
    {
      hide Value, Pow;
      ghost var b: Base := layout.Base();
      TrimmedZero(b, Digits());
      TrimmedZero(b, y.Digits());
      var yPositive := y.positive;
      var cmp := UCompare(y);
      if cmp < 0 {
        QuotUnique(Magnitude(), y.Magnitude(), 0, Magnitude());
        SetZero();
        return Done;
      }
      if cmp == 0 {
        if y.length != 0 {
          QuotUnique(Magnitude(), y.Magnitude(), 1, 0);
        }
        SetOne();
      } else if y.length == 0 {
        return DivisionByZero;
      } else {
        out := DivMagnitude(y);
        if out != Done {
          return;
        }
      }
      if !yPositive {
        Negate();
      }
      return Done;
    }

    method SetOne()
      requires Valid()
      modifies this, digit
      ensures Normal() && digit == old(digit) && positive == old(positive)
      ensures length == 1 && Magnitude() == 1
    {
      length := 1;
      digit[0] := 1;
      OneDigit(layout.Base(), Digits());
    }

    /** The magnitude of the quotient when the dividend's magnitude is the larger. */
    method DivMagnitude(y: BigInt) returns (out: DivOutcome)
      requires Normal() && y.Normal() && OwnsApart(y) && y != this
      requires y.length > 0 && Magnitude() > y.Magnitude()
      modifies this, digit
      ensures Normal() && digit == old(digit)
      ensures out == if old(ScaleWraps(y)) then ScaleTrap else Done
      ensures out != Done ==> Digits() == old(Digits()) && positive == old(positive)
      ensures out == Done ==> length > 0 && positive == old(positive)
      ensures out == Done ==> y.Magnitude() > 0 && Magnitude() == Quot(old(Magnitude()), old(y.Magnitude()))
    {
      hide Value, Pow;
      ghost var b: Base := layout.Base();
      ghost var n, m := Magnitude(), y.Magnitude();
      TrimmedZero(b, y.Digits());
      LargerByLength(b, Digits(), y.Digits());
      QuotientNotZero(n, m);
      if length <= layout.small {
        var nw := ToUint64();
        var mw := y.ToUint64();
        QuotientNotLarger(nw, mw);
        length := DigitSet(layout, Quot(nw, mw), digit);
      } else if y.length == 1 {
        DivDigit(y);
      } else {
        out := DivLong(y);
        if out != Done {
          return;
        }
      }
      EmptyValue(b, digit[..0]);
      Adjust();
      EmptyValue(b, digit[..0]);
      return Done;
    }

    // The one-digit branch.
    method DivDigit(y: BigInt)
      requires Normal() && y.Normal() && OwnsApart(y) && y != this && y.length == 1 <= length
      modifies digit
      ensures Valid() && y.Magnitude() > 0 && Magnitude() == Quot(old(Magnitude()), old(y.Magnitude()))
    {
      hide Value, Pow;
      ghost var b: Base := layout.Base();
      ghost var n, m := Magnitude(), y.Magnitude();
      OneDigit(b, y.Digits());
      TrimmedZero(b, y.Digits());
      var rem := DigitDivSingle(layout.Base(), digit, length, y.digit[0]);
      QuotUnique(n, m, Magnitude(), rem);
    }

    static lemma QuotientNotZero(n: nat, m: nat)
      requires n > m > 0
      ensures Quot(n, m) > 0
    {
      QuotRem(n, m);
    }

    static lemma QuotientNotLarger(n: nat, m: nat)
      requires m > 0
      ensures Quot(n, m) <= n
    {
      QuotRem(n, m);
      MulAtLeast(Quot(n, m), 1, m);
    }

    // The divisor's digits in a buffer that may be scaled.
    method CopyDigits(y: BigInt, room: nat) returns (a: array<nat>)
      requires y.Valid() && y.length <= room
      ensures fresh(a) && a.Length == room && a[..y.length] == y.Digits()
    {
      a := new nat[room];
      forall k | 0 <= k < y.length {
        a[k] := y.digit[k];
      }
    }

    /** The divisor's digits in a fresh buffer, and the scale for them unless its denominator
        wraps to zero; n is the dividend whose quotient and remainder the scale must respect. */
    method PrepareDivisor(y: BigInt, ghost n: nat) returns (out: DivOutcome, d: array<nat>, scale: nat)
      requires Valid() && y.Normal() && y.layout == layout && 2 <= y.length
      ensures fresh(d) && d.Length == y.length && d[..y.length] == y.Digits()
      ensures out == if !layout.promoted && y.digit[y.length - 1] == layout.Base() - 1 then ScaleTrap else Done
      ensures out == Done ==> 0 < d[y.length - 1] && scale == ScaleFor(layout.Base(), d[y.length - 1])
      ensures out == Done ==> 0 < scale < layout.Base() && y.Magnitude() > 0 && scale * y.Magnitude() > 0
      ensures out == Done ==> Quot(scale * n, scale * y.Magnitude()) == Quot(n, y.Magnitude())
      ensures out == Done ==> Rem(scale * n, scale * y.Magnitude()) == scale * Rem(n, y.Magnitude())
    {
      ghost var b: Base := layout.Base();
      d := CopyDigits(y, y.length);
      var top := d[y.length - 1];
      assert top == y.Digits()[y.length - 1];
      layout.ScaleDenominatorZero(top);
      var den := layout.ScaleDenominator(top);
      scale := 0;
      if den == 0 {
        return ScaleTrap, d, scale;
      }
      scale := Quot(layout.Base(), den);
      ScaleIsDigit(b, top);
      NonZeroTop(b, y.Digits());
      ScaledDivision(n, y.Magnitude(), scale);
      return Done, d, scale;
    }

    /** Long division: copies and scales both operands and divides. */
    method DivLong(y: BigInt) returns (out: DivOutcome)
      requires Normal() && y.Normal() && OwnsApart(y) && y != this
      requires 2 <= y.length <= length
      modifies this, digit
      ensures Valid() && digit == old(digit) && positive == old(positive)
      ensures out == if !layout.promoted && y.digit[y.length - 1] == layout.Base() - 1 then ScaleTrap else Done
      ensures out != Done ==> Digits() == old(Digits())
      ensures out == Done ==> y.Magnitude() > 0 && Magnitude() == Quot(old(Magnitude()), y.Magnitude())
    {
      var a := CopyDigits(this, length + 2);
      var bl := y.length;
      var d, scale;
      out, d, scale := PrepareDivisor(y, Magnitude());
      if out == Done {
        var fits := DivScaledInto(a, length, d, bl, scale, Magnitude(), y.Magnitude());
        assert fits;
      }
    }

    /** `%=`. Zero modulo zero is zero. Otherwise as for `/=`, with the truncated remainder. */
    method ModAssign(y: BigInt) returns (out: DivOutcome)
      requires Normal() && y.Normal() && OwnsApart(y)
      modifies this, digit
      ensures Normal() && (digit == old(digit) || fresh(digit))
      ensures out == DivisionByZero <==> old(y.Int()) == 0 && old(Int()) != 0
      ensures out == ScaleTrap <==> old(ScaleWraps(y))
      ensures out != OverRead
      ensures out == Done && old(y.Int()) != 0 ==> Int() == TruncRem(old(Int()), old(y.Int()))
      ensures old(y.Int()) == 0 && old(Int()) == 0 ==> Int() == 0
      ensures out != Done ==> Int() == old(Int())
      ensures old(Canonical()) ==> Canonical()
    {
      hide Value, Pow;
      ghost var b: Base := layout.Base();
      TrimmedZero(b, Digits());
      TrimmedZero(b, y.Digits());
      var cmp := UCompare(y);
      if cmp < 0 {
        QuotUnique(Magnitude(), y.Magnitude(), 0, Magnitude());
        return Done;
      }
      if cmp == 0 {
        if y.length != 0 {
          QuotUnique(Magnitude(), y.Magnitude(), 1, 0);
        }
        SetZero();
        return Done;
      }
      if y.length == 0 {
        return DivisionByZero;
      }
      out := ModMagnitude(y);
      if out == Done {
        EmptyValue(b, digit[..0]);
        Adjust();
        EmptyValue(b, digit[..0]);
      }
    }

    /** The magnitude of the remainder when the dividend's magnitude is the larger. */
    method ModMagnitude(y: BigInt) returns (out: DivOutcome)
      requires Normal() && y.Normal() && OwnsApart(y) && y != this
      requires y.length > 0 && Magnitude() > y.Magnitude()
      modifies this, digit
      ensures Valid() && (digit == old(digit) || fresh(digit))
      ensures out == if old(ScaleWraps(y)) then ScaleTrap else Done
      ensures out != Done ==> Digits() == old(Digits()) && positive == old(positive)
      ensures out == Done ==> y.Magnitude() > 0 && Magnitude() == Rem(old(Magnitude()), old(y.Magnitude()))
      ensures out == Done && Magnitude() != 0 ==> positive == old(positive)
    {
      hide Value, Pow;
      ghost var b: Base := layout.Base();
      ghost var n, m := Magnitude(), y.Magnitude();
      TrimmedZero(b, y.Digits());
      LargerByLength(b, Digits(), y.Digits());
      out := Done;
      if length <= layout.small {
        var nw := ToUint64();
        var mw := y.ToUint64();
        length := DigitSet(layout, Rem(nw, mw), digit);
      } else if y.length == 1 {
        ModDigit(y);
      } else {
        out := ModLong(y);
      }
    }

    // The one-digit branch.
    method ModDigit(y: BigInt)
      requires Normal() && y.Normal() && OwnsApart(y) && y != this && y.length == 1 <= length
      modifies this, digit
      ensures Valid() && digit == old(digit) && positive == old(positive)
      ensures y.Magnitude() > 0 && Magnitude() == Rem(old(Magnitude()), old(y.Magnitude()))
    {
      hide Value, Pow;
      ghost var b: Base := layout.Base();
      ghost var n, m := Magnitude(), y.Magnitude();
      OneDigit(b, y.Digits());
      TrimmedZero(b, y.Digits());
      var rem := DigitDivSingle(layout.Base(), digit, length, y.digit[0]);
      QuotUnique(n, m, Value(b, Digits()), rem);
      digit[0] := rem;
      length := 1;
      OneDigit(b, Digits());
    }

    /** Long division that keeps only the remainder: this object's own buffer is the dividend,
        and the remainder left in it is scaled back. */
    method ModLong(y: BigInt) returns (out: DivOutcome)
      requires Normal() && y.Normal() && OwnsApart(y) && y != this
      requires 2 <= y.length <= length
      modifies this, digit
      ensures Valid() && (digit == old(digit) || fresh(digit))
      ensures out == if !layout.promoted && y.digit[y.length - 1] == layout.Base() - 1 then ScaleTrap else Done
      ensures out != Done ==> Digits() == old(Digits()) && positive == old(positive)
      ensures out == Done ==> y.Magnitude() > 0 && Magnitude() == Rem(old(Magnitude()), y.Magnitude())
      ensures out == Done && Magnitude() != 0 ==> positive == old(positive)
    {
      ghost var n := Magnitude();
      Resize(length + 2);
      var d, scale;
      out, d, scale := PrepareDivisor(y, n);
      if out == Done {
        ModScaled(d, y.length, scale, n, y.Magnitude());
      }
    }

    /** Scales this object's digits and the divisor, and leaves the unscaled remainder. */
    method ModScaled(d: array<nat>, bl: nat, scale: nat, ghost n: nat, ghost m: nat)
      requires Valid() && 2 <= bl <= length && length + 2 <= digit.Length && d.Length == bl && d != digit
      requires Magnitude() == n
      requires AllDigits(layout.Base(), d[..bl]) && Value(layout.Base(), d[..bl]) == m
      requires 0 < d[bl - 1] && scale == ScaleFor(layout.Base(), d[bl - 1]) && 0 < scale < layout.Base()
      requires m > 0 && scale * m > 0 && Rem(scale * n, scale * m) == scale * Rem(n, m)
      modifies this, digit, d
      ensures Valid() && digit == old(digit)
      ensures Magnitude() == Rem(n, m)
      ensures Magnitude() != 0 ==> positive == old(positive)
    {
      length := ScaleOperands(layout.Base(), digit, length, d, bl, scale);
      assert digit[..bl + (length - bl)] == digit[..length];
      DigitDiv(layout.Base(), digit, d, bl, null, length - bl);
      assert digit[..bl] == digit[..bl + (length - bl)][..bl];
      LowDigits(layout.Base(), digit[..bl + (length - bl)], bl);
      length := bl;
      Unscale(scale, Rem(n, m));
    }

    static lemma LowDigits(b: nat, s: seq<nat>, k: nat)
      requires k <= |s| && AllDigits(b, s)
      ensures AllDigits(b, s[..k])
    {}

    method Unscale(scale: nat, ghost rem: nat)
      requires Valid() && 0 < scale < layout.Base() && Magnitude() == scale * rem
      modifies this, digit
      ensures Valid() && digit == old(digit) && Magnitude() == rem
      ensures Magnitude() != 0 ==> positive == old(positive)
    {
      EmptyValue(layout.Base(), digit[..0]);
      Adjust();
      if scale != 1 {
        var r := DigitDivSingle(layout.Base(), digit, length, scale);
        MulCommutes(scale, rem);
        QuotUnique(scale * rem, scale, rem, 0);
        QuotUnique(scale * rem, scale, Magnitude(), r);
      }
    }

    /** Takes over another number's value. */
    method CopyFrom(y: BigInt)
      requires Valid() && y.Valid() && OwnsApart(y) && y != this
      modifies this, digit
      ensures Valid() && (digit == old(digit) || fresh(digit))
      ensures Digits() == y.Digits() && positive == y.positive
    {
      Reallocate(y.length);
      forall k | 0 <= k < y.length {
        digit[k] := y.digit[k];
      }
      length := y.length;
      positive := y.positive;
      assert Digits() == y.Digits();
    }

    /** Assigns an elementary unsigned integer. */
    method Assign(ul: nat)
      requires Valid() && ul < layout.WordModulus()
      modifies this, digit
      ensures Canonical() && digit == old(digit) && Int() == ul
    {
      positive := true;
      length := DigitSet(layout, ul, digit);
    }

    /** The distinct objects and buffers that the static division works on. */
    static ghost predicate DivOperands(x: BigInt, y: BigInt, q: BigInt, r: BigInt)
      reads x, y, q, r, x.digit, y.digit, q.digit, r.digit
    {
      && x.Normal() && y.Normal() && q.Valid() && r.Valid()
      && x.layout == y.layout == q.layout == r.layout
      && q != r && q != x && q != y && r != x && r != y
      && q.digit != r.digit && q.digit != x.digit && q.digit != y.digit
      && r.digit != x.digit && r.digit != y.digit
    }

    /** Quotient and remainder satisfy the identity of truncated division. */
    static ghost predicate DivIdentity(x: BigInt, y: BigInt, q: BigInt, r: BigInt)
      requires x.Valid() && y.Valid() && q.Valid() && r.Valid()
      reads x, y, q, r, x.digit, y.digit, q.digit, r.digit
    {
      IsTruncatedDivision(x.Int(), y.Int(), q.Int(), r.Int())
    }

    /** The room that long division takes for the quotient: as many digits as the scaled dividend
        has more than the divisor. */
    static ghost function QuotientRoom(x: BigInt, y: BigInt): int
      requires x.Valid() && y.Valid() && 0 < y.length <= x.length
      reads x, y, x.digit, y.digit
    {
      ScaledLength(x.layout.Base(), x.Digits(), y.Digits()) - y.length
    }

    /** Long division is entered, its scale does not wrap, and the quotient or the remainder takes
        more digits than the buffer of its object has. The length is set before the buffer is
        exchanged, so that as many digits are copied from the old one. */
    static ghost predicate ResultsTooSmall(x: BigInt, y: BigInt, q: BigInt, r: BigInt)
      requires x.Normal() && y.Normal()
      reads x, y, q, r, x.digit, y.digit
    {
      && x.layout.small < x.length && 2 <= y.length <= x.length
      && x.Magnitude() > y.Magnitude() > 0 && !x.ScaleWraps(y)
      && (QuotientRoom(x, y) > q.digit.Length
          || Rem(x.Magnitude(), y.Magnitude()) >= Pow(x.layout.Base(), r.digit.Length))
    }

    /** The static `div`. It takes the quotient's sign in the equal case from what the quotient
        object held before, and copies the divisor where the dividend is needed when a long
        dividend meets a one-digit divisor: the division identity holds exactly outside these
        two cases. Long division reads past the end of a result's buffer exactly if that is too
        small for the result. */
    static method Div(x: BigInt, y: BigInt, q: BigInt, r: BigInt) returns (out: DivOutcome)
      requires DivOperands(x, y, q, r)
      modifies q, r, q.digit, r.digit
      ensures q.Valid() && r.Valid() && (out == Done ==> q.Normal() && r.Normal())
      ensures out == DivisionByZero <==> y.Int() == 0 && x.Int() != 0
      ensures out == DivisionByZero ==> q.Int() == old(q.Int()) && r.Int() == old(r.Int())
      ensures out == ScaleTrap <==> x.ScaleWraps(y)
      ensures out == OverRead <==> old(ResultsTooSmall(x, y, q, r))
      ensures out == Done && y.Int() != 0 ==>
        (DivIdentity(x, y, q, r) <==>
          !(x.Magnitude() == y.Magnitude() && old(q.positive) != x.positive)
          && !(x.layout.small < x.length && y.length == 1))
      ensures out == Done && x.Magnitude() == y.Magnitude() ==>
        q.Int() == Signed(old(q.positive) == y.positive, 1) && r.Int() == 0
      ensures out == Done && x.layout.small < x.length && y.length == 1 ==>
        q.Int() == Signed(x.positive == y.positive, 1) && r.Int() == 0
    {
      ghost var b: Base := x.layout.Base();
      TrimmedZero(b, x.Digits());
      TrimmedZero(b, y.Digits());
      x.LargerByLength(b, x.Digits(), y.Digits());
      var cmp := x.UCompare(y);
      if cmp < 0 {
        DivBelow(x, y, q, r);
        return Done;
      }
      if cmp == 0 {
        DivEqual(x, y, q, r);
        return Done;
      }
      if y.length == 0 {
        return DivisionByZero;
      }
      out := DivLarger(x, y, q, r);
    }

    // Dividend below divisor.
    static method DivBelow(x: BigInt, y: BigInt, q: BigInt, r: BigInt)
      requires DivOperands(x, y, q, r) && x.Magnitude() < y.Magnitude()
      modifies q, r, q.digit, r.digit
      ensures q.Normal() && r.Normal() && DivIdentity(x, y, q, r)
    {
      ghost var n, m := x.Magnitude(), y.Magnitude();
      r.CopyFrom(x);
      q.SetZero();
      QuotUnique(n, m, 0, n);
      MeetsIdentity(x.positive, n, y.positive, m, true, 0, x.positive, n);
    }

    // Equal magnitudes.
    static method DivEqual(x: BigInt, y: BigInt, q: BigInt, r: BigInt)
      requires DivOperands(x, y, q, r) && x.Magnitude() == y.Magnitude()
      modifies q, r, q.digit, r.digit
      ensures q.Normal() && r.Normal()
      ensures q.Int() == Signed(old(q.positive) == y.positive, 1) && r.Int() == 0
      ensures y.Magnitude() != 0 ==> (DivIdentity(x, y, q, r) <==> old(q.positive) == x.positive)
    {
      ghost var n, m := x.Magnitude(), y.Magnitude();
      r.SetZero();
      q.SetOne();
      if !y.positive {
        q.Negate();
      }
      if m != 0 {
        QuotUnique(n, m, 1, 0);
        MeetsIdentity(x.positive, n, y.positive, m, q.positive, 1, true, 0);
      }
    }

    // Dividend above divisor, and the divisor is not zero.
    static method DivLarger(x: BigInt, y: BigInt, q: BigInt, r: BigInt) returns (out: DivOutcome)
      requires DivOperands(x, y, q, r)
      requires 0 < y.length <= x.length && x.Magnitude() > y.Magnitude() > 0
      modifies q, r, q.digit, r.digit
      ensures q.Valid() && r.Valid() && (out == Done ==> q.Normal() && r.Normal())
      ensures out == if x.ScaleWraps(y) then ScaleTrap else if old(ResultsTooSmall(x, y, q, r)) then OverRead else Done
      ensures out == Done ==> (DivIdentity(x, y, q, r) <==> !(x.layout.small < x.length && y.length == 1))
      ensures out == Done && x.layout.small < x.length && y.length == 1 ==>
        q.Int() == Signed(x.positive == y.positive, 1) && r.Int() == 0
    {
      out := DivMagnitudes(x, y, q, r);
      if out == Done {
        DivSigns(x, y, q, r);
      }
    }

    // The signs of the results, after the magnitudes are found.
    static method DivSigns(x: BigInt, y: BigInt, q: BigInt, r: BigInt)
      requires DivOperands(x, y, q, r) && r.Normal()
      requires x.Magnitude() > y.Magnitude() > 0 && LeftBy(x, y, q, r)
      modifies q, r
      ensures q.digit == old(q.digit) && r.digit == old(r.digit)
      ensures q.Normal() && r.Normal()
      ensures DivIdentity(x, y, q, r) <==> !(x.layout.small < x.length && y.length == 1)
      ensures x.layout.small < x.length && y.length == 1 ==>
        q.Int() == Signed(x.positive == y.positive, 1) && r.Int() == 0
    {
      hide Value, Pow;
      ghost var b: Base := x.layout.Base();
      ghost var n, m := x.Magnitude(), y.Magnitude();
      q.Adjust();
      q.positive := q.length == 0 || x.positive == y.positive;
      r.positive := r.length == 0 || x.positive;
      TrimmedZero(b, q.Digits());
      TrimmedZero(b, r.Digits());
      if x.layout.small < x.length && y.length == 1 {
        IdentityFails(x.positive, n, y.positive, m, q.positive, r.positive);
      } else {
        MeetsIdentity(x.positive, n, y.positive, m, q.positive, q.Magnitude(), r.positive, r.Magnitude());
      }
    }

    // Magnitudes that divide make the identity depend on the signs alone.
    static lemma MeetsIdentity(xp: bool, n: nat, yp: bool, m: nat, qp: bool, q: nat, rp: bool, r: nat)
      requires m > 0 && q == Quot(n, m) && r == Rem(n, m)
      requires q != 0 || qp
      requires r == 0 || rp == xp
      ensures IsTruncatedDivision(Signed(xp, n), Signed(yp, m), Signed(qp, q), Signed(rp, r))
        <==> q == 0 || qp == (xp == yp)
    {
      TruncatedDivisionUnique(Signed(xp, n), Signed(yp, m), Signed(qp, q), Signed(rp, r));
      QuotRem(n, m);
      if n == 0 {
        QuotUnique(0, m, 0, 0);
      }
    }

    static lemma IdentityFails(xp: bool, n: nat, yp: bool, m: nat, qp: bool, rp: bool)
      requires n > m
      ensures !IsTruncatedDivision(Signed(xp, n), Signed(yp, m), Signed(qp, 1), Signed(rp, 0))
    {}

    /** What `div` leaves in quotient and remainder, up to signs: one and zero where it divided
        a copy of the divisor, otherwise the quotient and the remainder of the magnitudes. */
    static ghost predicate LeftBy(x: BigInt, y: BigInt, q: BigInt, r: BigInt)
      requires x.Valid() && y.Valid() && q.Valid() && r.Valid() && y.Magnitude() > 0
      reads x, y, q, r, x.digit, y.digit, q.digit, r.digit
    {
      if x.layout.small < x.length && y.length == 1 then
        q.Magnitude() == 1 && r.Magnitude() == 0
      else
        q.Magnitude() == Quot(x.Magnitude(), y.Magnitude()) && r.Magnitude() == Rem(x.Magnitude(), y.Magnitude())
    }

    static method DivMagnitudes(x: BigInt, y: BigInt, q: BigInt, r: BigInt) returns (out: DivOutcome)
      requires DivOperands(x, y, q, r)
      requires 0 < y.length <= x.length && x.Magnitude() > y.Magnitude() > 0
      modifies q, r, q.digit, r.digit
      ensures q.Valid() && r.Valid() && (out == Done ==> r.Normal())
      ensures out == if x.ScaleWraps(y) then ScaleTrap else if old(ResultsTooSmall(x, y, q, r)) then OverRead else Done
      ensures DivOperands(x, y, q, r)
      ensures out == Done ==> LeftBy(x, y, q, r)
    {
      hide Value, Pow;
      out := Done;
      if x.length <= x.layout.small {
        DivWords(x, y, q, r);
      } else if y.length == 1 {
        DivCopiedDivisor(y, q, r);
      } else {
        out := DivModLong(x, y, q, r);
      }
    }

    // The branch for numbers that a word holds.
    static method DivWords(x: BigInt, y: BigInt, q: BigInt, r: BigInt)
      requires DivOperands(x, y, q, r)
      requires 0 < y.length <= x.length <= x.layout.small && x.Magnitude() > y.Magnitude() > 0
      modifies q, r, q.digit, r.digit
      ensures q.Normal() && r.Normal() && q.digit == old(q.digit) && r.digit == old(r.digit)
      ensures q.Magnitude() == Quot(x.Magnitude(), y.Magnitude())
      ensures r.Magnitude() == Rem(x.Magnitude(), y.Magnitude())
    {
      hide Value, Pow;
      var n := x.ToUint64();
      var m := y.ToUint64();
      QuotientNotLarger(n, m);
      q.Assign(Quot(n, m));
      r.Assign(Rem(n, m));
    }

    // The one-digit branch: the divisor is copied and divided by itself.
    static method DivCopiedDivisor(y: BigInt, q: BigInt, r: BigInt)
      requires y.Normal() && q.Valid() && r.Valid() && y.length == 1 && q.layout == y.layout == r.layout
      requires q != r && q != y && r != y && q.digit != r.digit && q.digit != y.digit && r.digit != y.digit
      modifies q, r, q.digit, r.digit
      ensures r.digit == old(r.digit) && (q.digit == old(q.digit) || fresh(q.digit))
      ensures q.Valid() && r.Normal() && q.Magnitude() == 1 && r.Magnitude() == 0
    {
      ghost var b: Base := y.layout.Base();
      q.CopyFrom(y);
      y.OneDigit(b, y.Digits());
      var rem := DigitDivSingle(y.layout.Base(), q.digit, q.length, y.digit[0]);
      r.digit[0] := rem;
      r.length := if r.digit[0] != 0 then 1 else 0;
      QuotUnique(y.Magnitude(), y.Magnitude(), 1, 0);
      QuotUnique(y.Magnitude(), y.Magnitude(), Value(b, q.Digits()), rem);
    }

    /** The multi-digit branch of `div`: both operands are copied and scaled, the quotient goes
        to q, and what is left of the dividend's copy is unscaled into r. */
    static method DivModLong(x: BigInt, y: BigInt, q: BigInt, r: BigInt) returns (out: DivOutcome)
      requires DivOperands(x, y, q, r)
      requires x.layout.small < x.length && 2 <= y.length <= x.length && x.Magnitude() > y.Magnitude() > 0
      modifies q, r, q.digit, r.digit
      ensures q.Valid() && r.Valid() && (out == Done ==> r.Normal())
      ensures q.digit == old(q.digit) && r.digit == old(r.digit)
      ensures out == if x.ScaleWraps(y) then ScaleTrap else if old(ResultsTooSmall(x, y, q, r)) then OverRead else Done
      ensures out == Done ==> y.Magnitude() > 0 && q.Magnitude() == Quot(x.Magnitude(), y.Magnitude())
      ensures out == Done ==> r.Magnitude() == Rem(x.Magnitude(), y.Magnitude())
    {
      hide Value, Pow;
      var a := x.CopyDigits(x, x.length + 2);
      var bl := y.length;
      var d, scale;
      out, d, scale := x.PrepareDivisor(y, x.Magnitude());
      if out != Done {
        return;
      }
      var fits := q.DivScaledInto(a, x.length, d, bl, scale, x.Magnitude(), y.Magnitude());
      if fits {
        fits := r.TakeUnscaled(a, bl, scale, Rem(x.Magnitude(), y.Magnitude()));
      }
      if !fits {
        out := OverRead;
      }
    }

    /** Scales a/al and d/bl and, if there is room for the quotient here, divides: the quotient is
        stored here, the remainder left in a. */
    method DivScaledInto(a: array<nat>, al: nat, d: array<nat>, bl: nat, scale: nat, ghost n: nat, ghost m: nat)
      returns (fits: bool)
      requires Valid() && 2 <= bl <= al && a.Length == al + 2 && d.Length == bl
      requires a != d && a != digit && d != digit
      requires AllDigits(layout.Base(), a[..al]) && Value(layout.Base(), a[..al]) == n
      requires AllDigits(layout.Base(), d[..bl]) && Value(layout.Base(), d[..bl]) == m
      requires 0 < d[bl - 1] && scale == ScaleFor(layout.Base(), d[bl - 1])
      requires m > 0 && scale * m > 0 && Quot(scale * n, scale * m) == Quot(n, m)
      requires Rem(scale * n, scale * m) == scale * Rem(n, m)
      modifies this, digit, a, d
      ensures Valid() && digit == old(digit) && positive == old(positive)
      ensures fits <==> ScaledLength(layout.Base(), old(a[..al]), old(d[..bl])) - bl <= digit.Length
      ensures fits ==> Magnitude() == Quot(n, m)
      ensures fits ==> AllDigits(layout.Base(), a[..bl]) && Value(layout.Base(), a[..bl]) == scale * Rem(n, m)
    {
      hide Value, Pow;
      var l := ScaleOperands(layout.Base(), a, al, d, bl, scale);
      if l - bl > digit.Length {
        return false;
      }
      assert a[..bl + (l - bl)] == a[..l];
      DigitDiv(layout.Base(), a, d, bl, digit, l - bl);
      assert a[..bl] == a[..bl + (l - bl)][..bl];
      LowDigits(layout.Base(), a[..bl + (l - bl)], bl);
      length := l - bl;
      return true;
    }

    /** Divides the remainder by the scale and takes it over if there is room for it here; dropping
        one zero top digit after the division leaves no other. */
    method TakeUnscaled(a: array<nat>, bl: nat, scale: nat, ghost rem: nat) returns (fits: bool)
      requires Valid() && bl <= a.Length && a != digit && 0 < scale < layout.Base()
      requires AllDigits(layout.Base(), a[..bl]) && Value(layout.Base(), a[..bl]) == scale * rem
      modifies this, digit, a
      ensures Valid() && digit == old(digit)
      ensures fits <==> rem < Pow(layout.Base(), digit.Length)
      ensures fits ==> Normal() && Magnitude() == rem
    {
      hide Value, Pow;
      ghost var b: Base := layout.Base();
      var al := bl;
      while al != 0 && a[al - 1] == 0
        invariant 0 <= al <= bl && forall k :: al <= k < bl ==> a[k] == 0
      {
        al := al - 1;
      }
      LeadingZeros(b, a[..bl], al);
      assert a[..bl][..al] == a[..al];
      MulCommutes(scale, rem);
      QuotUnique(scale * rem, scale, rem, 0);
      ghost var s := a[..al];
      if scale != 1 {
        var m := DigitDivSingle(layout.Base(), a, al, scale);
        QuotUnique(scale * rem, scale, Value(b, a[..al]), m);
        DividingDropsOneDigit(b, s, a[..al], scale, m);
      }
      if al != 0 && a[al - 1] == 0 {
        LeadingZeros(b, a[..al], al - 1);
        assert a[..al][..al - 1] == a[..al - 1];
        al := al - 1;
      }
      fits := al <= digit.Length;
      FitsExactly(b, a[..al], digit.Length);
      if fits {
        CopyIn(a, al);
      }
    }

    method CopyIn(a: array<nat>, al: nat)
      requires Valid() && al <= digit.Length && al <= a.Length && a != digit && AllDigits(layout.Base(), a[..al])
      modifies this, digit
      ensures Valid() && digit == old(digit) && Digits() == a[..al]
    {
      forall k | 0 <= k < al {
        digit[k] := a[k];
      }
      length := al;
      assert Digits() == a[..al];
    }

    // A trimmed string fits a buffer exactly if its value does.
    static lemma FitsExactly(b: Base, s: seq<nat>, room: nat)
      requires AllDigits(b, s) && Trimmed(s)
      ensures |s| <= room <==> Value(b, s) < Pow(b, room)
    {
      if |s| <= room {
        ValueBound(b, s);
        PowMonotone(b, |s|, room);
      } else {
        NonZeroTop(b, s);
        PowMonotone(b, room, |s| - 1);
      }
    }

    static lemma SmallQuotient(b: nat, d: nat, p: nat, v: nat, rem: nat, whole: nat)
      requires v < p && d < b && rem < d && whole == v * d + rem
      ensures whole < b * p
    {
      MulAtLeast(d, v + 1, p);
      MulAtLeast(p, d, b);
      MulCommutes(p, d);
      assert (v + 1) * d == v * d + d;
    }

    /** Dividing a trimmed string by one digit zeroes at most its top digit. */
    static lemma DividingDropsOneDigit(b: Base, s: seq<nat>, t: seq<nat>, d: nat, rem: nat)
      requires |s| == |t| && AllDigits(b, s) && AllDigits(b, t) && Trimmed(s) && 0 < d < b
      requires Value(b, s) == Value(b, t) * d + rem && rem < d
      ensures t != [] && t[|t| - 1] == 0 ==> Trimmed(t[..|t| - 1])
    {
      var n := |t|;
      if n >= 2 && t[n - 1] == 0 {
        LeadingZeros(b, t, n - 1);
        NonZeroTop(b, s);
        var p := Pow(b, n - 2);
        if Value(b, t) < p {
          SmallQuotient(b, d, p, Value(b, t), rem, Value(b, s));
        }
        TopNonZero(b, t[..n - 1]);
      }
    }

    /** Whether the value is that of a signed elementary integer. */
    method IsInt64() returns (r: bool)
      requires Canonical()
      ensures r <==> -(Quot(layout.WordModulus(), 2) as int) <= Int() < Quot(layout.WordModulus(), 2)
    {
      ghost var b: Base, s := layout.Base(), Digits();
      ghost var w := Pow(layout.Base(), layout.small - 1);
      layout.HalfWord();
      LengthDecides(b, s, layout.small, Quot(layout.Base(), 2), w);
      if length < layout.small {
        return true;
      }
      if length > layout.small {
        return false;
      }
      var max := Quot(layout.Base(), 2);
      TopDecides(b, s, max);
      if digit[layout.small - 1] < max {
        return true;
      }
      if positive || digit[layout.small - 1] > max {
        return false;
      }
      // The one number whose magnitude has just the topmost bit set.
      r := ZeroBelow(length - 1);
    }

    static lemma LengthDecides(b: Base, s: seq<nat>, small: nat, half: nat, w: nat)
      requires AllDigits(b, s) && Trimmed(s) && small >= 1 && w == Pow(b, small - 1) && 2 * half == b
      ensures |s| < small ==> Value(b, s) < half * w
      ensures |s| > small ==> Value(b, s) > half * w
    {
      DoubleHalf(b, half, w);
      if |s| < small {
        ValueBound(b, s);
        PowMonotone(b, |s|, small - 1);
      } else if |s| > small {
        NonZeroTop(b, s);
        PowMonotone(b, small, |s| - 1);
        assert Pow(b, small) == b * w;
      }
    }

    static lemma DoubleHalf(b: Base, half: nat, w: nat)
      requires 2 * half == b && w > 0
      ensures w <= half * w < b * w
    {
      MulAtLeast(w, 1, half);
      MulLess(w, half, b);
    }

    static lemma TopDecides(b: Base, s: seq<nat>, half: nat)
      requires s != [] && AllDigits(b, s)
      ensures var t := s[|s| - 1]; var h := half * Pow(b, |s| - 1);
        && (t < half ==> Value(b, s) < h)
        && (t > half ==> Value(b, s) > h)
        && (t == half ==> Value(b, s) == h + Value(b, s[..|s| - 1]))
    {
      var t, w := s[|s| - 1], Pow(b, |s| - 1);
      TopDigit(b, s);
      PrefixStep(b, s, |s| - 1);
      assert s[..|s| - 1 + 1] == s;
      if t < half {
        MulAtLeast(w, t + 1, half);
      } else if t > half {
        MulLess(w, half, t);
      }
    }

    method ZeroBelow(n: nat) returns (zero: bool)
      requires Valid() && n <= length
      ensures zero <==> Value(layout.Base(), Digits()[..n]) == 0
    {
      ghost var b: Base, s := layout.Base(), Digits()[..n];
      var l := n;
      while l > 0
        invariant 0 <= l <= n
        invariant forall k :: l <= k < n ==> s[k] == 0
      {
        l := l - 1;
        if digit[l] != 0 {
          NonZeroSomewhere(b, s, l);
          return false;
        }
      }
      ValueZeros(b, s);
      return true;
    }

    static lemma NonZeroSomewhere(b: Base, s: seq<nat>, l: nat)
      requires l < |s| && AllDigits(b, s) && s[l] != 0
      ensures Value(b, s) > 0
    {
      ValueSplit(b, s, l);
      assert s[l..][0] == s[l];
      MulAtLeast(Pow(b, l), 1, Value(b, s[l..]));
    }

    /** Reads a word as a two's complement number. */
    static function AsSigned(ul: nat, modulus: nat): int {
      if ul < Quot(modulus, 2) then ul else ul - modulus
    }

    method ToInt64() returns (r: int)
      requires Canonical()
      ensures -(Quot(layout.WordModulus(), 2) as int) <= Int() < Quot(layout.WordModulus(), 2) ==> r == Int()
      ensures -(Quot(layout.WordModulus(), 2) as int) <= r < Quot(layout.WordModulus(), 2)
      ensures exists k: int :: r == Int() + k * layout.WordModulus()
    {
      var ul := ToUint64();
      ghost var m := layout.WordModulus();
      layout.HalfWord();
      QuotRem(Magnitude(), m);
      if -(Quot(m, 2) as int) <= Int() < Quot(m, 2) {
        QuotUnique(Magnitude(), m, 0, Magnitude());
        TrimmedZero(layout.Base(), Digits());
      }
      var word := if positive || ul == 0 then ul else layout.WordModulus() - ul;
      r := AsSigned(word, layout.WordModulus());
      SameModulo(positive, Magnitude(), m, word, r);
    }

    // The signed word differs from the number by a multiple of the modulus.
    static lemma SameModulo(positive: bool, v: nat, m: nat, word: nat, r: int)
      requires m > 0 && r == AsSigned(word, m)
      requires word == if positive || Rem(v, m) == 0 then Rem(v, m) else m - Rem(v, m)
      ensures exists k: int :: r == Signed(positive, v) + k * m
    {
      QuotRem(v, m);
      var q: int := Quot(v, m);
      var k := (if positive then -q else if Rem(v, m) == 0 then q else q + 1) - if word < Quot(m, 2) then 0 else 1;
      assert (-q) * m == -(q * m) && (-q - 1) * m == -(q * m) - m;
      assert (q + 1) * m == q * m + m && (q - 1) * m == q * m - m;
      assert r == Signed(positive, v) + k * m;
    }

    /** The exponent of the largest power of two that does not exceed the magnitude. */
    method FloorPow2() returns (e: nat)
      requires Valid()
      ensures Magnitude() == 0 ==> e == 0
      ensures Magnitude() > 0 ==> Pow(2, e) <= Magnitude() < Pow(2, e + 1)
    {
      ghost var b: Base, s := layout.Base(), Digits();
      var i := length;
      while i > 0 && digit[i - 1] == 0
        invariant 0 <= i <= length && forall k :: i <= k < length ==> s[k] == 0
      {
        i := i - 1;
      }
      LeadingZeros(b, s, i);
      if i == 0 {
        EmptyValue(b, s[..0]);
        return 0;
      }
      i := i - 1;
      var power := 1;
      var count := 0;
      ghost var d := digit[i];
      while power * 2 <= digit[i]
        invariant power == Pow(2, count) && power <= d
        decreases d - power
      {
        SumFits(layout.Base(), 2 * power);
        count := count + 1;
        power := Two(layout.Base(), power * 2);
      }
      e := 8 * layout.bytes * i + count;
      TopDigit(b, s[..i + 1]);
      layout.BaseInBits();
      PowPow(2, 8 * layout.bytes, i);
      PowAdd(2, 8 * layout.bytes * i, count);
      PowAdd(2, 8 * layout.bytes * i, count + 1);
      BitBounds(Pow(b, i), d, power, Magnitude());
    }

    static lemma BitBounds(p: nat, d: nat, power: nat, v: nat)
      requires d * p <= v < (d + 1) * p && power <= d < 2 * power
      ensures p * power <= v < p * (2 * power)
    {
      MulAtLeast(p, power, d);
      MulAtLeast(p, d + 1, 2 * power);
    }

    /** Sets the value to a power of two. */
    method SetPower2(exponent: nat)
      requires Valid()
      modifies this, digit
      ensures Canonical() && (digit == old(digit) || fresh(digit))
      ensures Int() == Pow(2, exponent)
    {
      ghost var b: Base := layout.Base();
      var bits := 8 * layout.bytes;
      var digitOffset := Quot(exponent, bits);
      var bitOffset := Rem(exponent, bits);
      QuotRem(exponent, bits);
      layout.BaseInBits();
      PowMonotone(2, bitOffset, bits);
      Reallocate(1 + digitOffset);
      length := 1 + digitOffset;
      positive := true;
      forall k | 0 <= k < digitOffset {
        digit[k] := 0;
      }
      digit[digitOffset] := Pow(2, bitOffset);
      PowerDigits(b, Digits(), digitOffset, Pow(2, bitOffset));
      PowPow(2, bits, digitOffset);
      PowAdd(2, bitOffset, bits * digitOffset);
      MulCommutes(bits, digitOffset);
    }

    // A single digit above zeros.
    static lemma PowerDigits(b: Base, s: seq<nat>, n: nat, d: nat)
      requires |s| == n + 1 && s[n] == d && forall k :: 0 <= k < n ==> s[k] == 0
      ensures Value(b, s) == d * Pow(b, n)
    {
      ValueZeros(b, s[..n]);
      PrefixStep(b, s, n);
      assert s[..n + 1] == s;
    }

    /** The text s is a C string without its terminator.
        Reads digits of the radix from position `from` on, appending them to the number held,
        up to the end of the text or the first character that is not such a digit; returns where
        it stopped. At the end of the text the number is trimmed and a zero made positive; a
        stop before the end skips that. */
    method ScanOn(s: seq<char>, from: nat, radix: nat) returns (end: nat)
      requires Valid() && from <= |s| && radix < layout.Base()
      modifies this, digit
      ensures Valid() && (digit == old(digit) || fresh(digit))
      ensures from <= end <= |s| && AllScan(s[from..end], radix)
      ensures end < |s| ==> !Scans(s[end], radix) && positive == old(positive)
      ensures Magnitude() == TextValue(old(Magnitude()), s[from..end], radix)
      ensures end == |s| ==> Normal() && positive == (length == 0 || old(positive))
      ensures end < |s| ==> (length == 0 <==> old(length) == 0 && end == from)
      ensures old(Normal()) ==> (Normal() <==> length == 0 || Magnitude() > 0)
    {
      ghost var m := Magnitude();
      ghost var scannable := Scannable(Digits());
      end := from;
      while end < |s|
        invariant from <= end <= |s| && AllScan(s[from..end], radix)
        invariant Valid() && (digit == old(digit) || fresh(digit)) && positive == old(positive)
        invariant Magnitude() == TextValue(m, s[from..end], radix)
        invariant length == 0 <==> old(length) == 0 && end == from
        invariant scannable ==> Scannable(Digits())
      {
        var dig := ScanValue(s[end]);
        if dig == 36 || dig >= radix {
          if scannable {
            ScannableNormal(layout.Base(), Digits());
          }
          return;
        }
        ScannedOneMore(m, s, from, end, radix);
        TakeDigit(dig, radix);
        end := end + 1;
      }
      Adjust();
      TrimmedZero(layout.Base(), Digits());
    }

    /** The forms that the digits have during a scan: trimmed, or the single digit zero. */
    static ghost predicate Scannable(s: seq<nat>) {
      Trimmed(s) || s == [0]
    }

    static lemma ScannableNormal(b: Base, s: seq<nat>)
      requires AllDigits(b, s) && Scannable(s)
      ensures Trimmed(s) <==> s == [] || Value(b, s) > 0
    {
      if Trimmed(s) {
        TrimmedZero(b, s);
      } else {
        assert s[1..] == [];
      }
    }

    /** Digits of the same length and no smaller value keep the form. */
    static lemma StaysScannable(b: Base, s: seq<nat>, t: seq<nat>)
      requires AllDigits(b, s) && AllDigits(b, t) && |s| == |t| && Value(b, s) <= Value(b, t) && Scannable(s)
      ensures Scannable(t)
    {
      if |s| >= 2 {
        NonZeroTop(b, s);
        TopNonZero(b, t);
      }
    }

    static lemma ScannedOneMore(m: nat, s: seq<char>, from: nat, end: nat, radix: nat)
      requires from <= end < |s| && AllScan(s[from..end], radix) && Scans(s[end], radix)
      ensures AllScan(s[from..end + 1], radix)
      ensures TextValue(m, s[from..end + 1], radix)
              == TextValue(m, s[from..end], radix) * radix + ScanValue(s[end])
    {
      TextValueSnoc(m, s[from..end], s[end], radix);
      assert s[from..end + 1] == s[from..end] + [s[end]];
    }

    /** Multiplies by the radix and adds a digit. */
    method TakeDigit(dig: nat, radix: nat)
      requires Valid() && dig < radix < layout.Base()
      modifies this, digit
      ensures Valid() && (digit == old(digit) || fresh(digit)) && positive == old(positive)
      ensures Magnitude() == old(Magnitude()) * radix + dig
      ensures length > 0 && (old(Scannable(Digits())) ==> Scannable(Digits()))
    {
      hide Value, Pow;
      ghost var v, s := Magnitude(), Digits();
      var c := DigitMulSingle(layout.Base(), digit, length, radix);
      MulCommutes(radix, v);
      MulAtLeast(v, 1, radix);
      PlaceOverflow(layout.Base(), Digits(), c, radix * v);
      if c != 0 {
        Append(c);
      } else if Scannable(s) {
        StaysScannable(layout.Base(), s, Digits());
      }
      if length == 0 {
        EmptyValue(layout.Base(), Digits());
        length := 1;
        digit[0] := dig;
        OneDigit(layout.Base(), Digits());
      } else {
        AddDigit(dig);
      }
    }

    method AddDigit(dig: nat)
      requires Valid() && length > 0 && dig < layout.Base()
      modifies this, digit
      ensures Valid() && (digit == old(digit) || fresh(digit)) && positive == old(positive)
      ensures Magnitude() == old(Magnitude()) + dig
      ensures length > 0 && (old(Scannable(Digits())) ==> Scannable(Digits()))
    {
      hide Value, Pow;
      ghost var v, s := Magnitude(), Digits();
      var d := new nat[1];
      d[0] := dig;
      OneDigit(layout.Base(), d[..1]);
      var c := DigitAdd(layout.Base(), digit, length, d, 1, digit);
      PlaceOverflow(layout.Base(), Digits(), c, v + dig);
      if c != 0 {
        Append(c);
      } else if Scannable(s) {
        StaysScannable(layout.Base(), s, Digits());
      }
    }

    /** Reads an optional sign and then digits, which continue those that the number has. A text
        without a minus sign does not change the sign. */
    method Scan(s: seq<char>, radix: nat) returns (end: nat)
      requires Valid() && radix < layout.Base()
      modifies this, digit
      ensures Valid() && (digit == old(digit) || fresh(digit))
      ensures SignLength(s) <= end <= |s| && AllScan(s[SignLength(s)..end], radix)
      ensures end < |s| ==> !Scans(s[end], radix) && positive == (old(positive) && !Minus(s))
      ensures Magnitude() == TextValue(old(Magnitude()), s[SignLength(s)..end], radix)
      ensures end == |s| ==> Normal() && positive == (length == 0 || (old(positive) && !Minus(s)))
      ensures end == |s| && old(length) == 0 && old(positive) ==>
        IsNumber(s, radix) && Canonical() && Int() == TextInt(s, radix)
      ensures old(Normal()) ==>
        (Canonical() <==>
          || end == |s|
          || Magnitude() > 0
          || (old(length) == 0 && end == SignLength(s) && old(positive) && !Minus(s)))
    {
      if length == 0 {
        EmptyValue(layout.Base(), Digits());
      }
      var from := 0;
      if s != [] && s[0] == '-' {
        positive := false;
        from := 1;
      } else if s != [] && s[0] == '+' {
        from := 1;
      }
      end := ScanOn(s, from, radix);
      if end == |s| {
        assert s[from..end] == s[SignLength(s)..];
        TrimmedZero(layout.Base(), Digits());
      }
    }

    /** A number from a text. It has the value of the sign and the digits in front; after a
        character that is no digit it is canonical unless the digits are all zeros, or there is only
        a minus sign. */
    constructor FromText(layout: Layout, s: seq<char>, radix: nat)
      requires layout.Valid() && radix < layout.Base()
      ensures this.layout == layout && fresh(digit) && Valid()
      ensures var end := ScanEnd(s, SignLength(s), radix); var v := TextValue(0, s[SignLength(s)..end], radix);
        && Int() == Signed(!Minus(s), v)
        && (Canonical() <==> IsNumber(s, radix) || v > 0 || (end == SignLength(s) && !Minus(s)))
      ensures !IsNumber(s, radix) ==> positive == !Minus(s)
      ensures IsNumber(s, radix) ==> Canonical() && Int() == TextInt(s, radix)
    {
      this.layout := layout;
      length := 0;
      digit := new nat[layout.small + 1];
      positive := true;
      new;
      EmptyValue(layout.Base(), Digits());
      var end := Scan(s, radix);
      ScanEndUnique(s, SignLength(s), radix, end);
      assert end < |s| ==> s[SignLength(s)..][end - SignLength(s)] == s[end];
      assert end == |s| ==> s[SignLength(s)..end] == s[SignLength(s)..];
    }

    /** An upper bound for the number of digits of the magnitude's text. */
    method DigitsBound(radix: Radix) returns (n: nat)
      requires Valid()
      ensures |MagnitudeText(Magnitude(), radix)| <= n
      ensures |Text(Int(), radix)| <= n + 1
      ensures forall bits: nat :: bits >= 1 && Pow(2, bits) <= radix < Pow(2, bits + 1) ==>
        n == Quot(8 * layout.bytes * length + bits - 1, bits)
    {
      var bits := 0;
      var b: nat := radix;
      ghost var p := 1;
      while b > 1
        invariant 1 <= b && p == Pow(2, bits) && b * p <= radix < (b + 1) * p && (bits == 0 ==> b == radix)
      {
        HalveAndDouble(b, p, radix);
        bits := bits + 1;
        b := Quot(b, 2);
        p := 2 * p;
      }
      assert b == 1 && p <= radix && bits >= 1;
      ghost var total := 8 * layout.bytes * length;
      ValueBound(layout.Base(), Digits());
      layout.BaseInBits();
      PowPow(2, 8 * layout.bytes, length);
      TextFits(Magnitude(), radix, bits, total);
      n := Quot(8 * layout.bytes * length + bits - 1, bits);
      forall k: nat | k >= 1 && Pow(2, k) <= radix < Pow(2, k + 1) ensures k == bits {
        OneExponent(radix, k, bits);
      }
    }

    static lemma OneExponent(n: nat, j: nat, k: nat)
      requires Pow(2, j) <= n < Pow(2, j + 1) && Pow(2, k) <= n < Pow(2, k + 1)
      ensures j == k
    {
      hide Pow;
      if j < k {
        PowMonotone(2, j + 1, k);
      } else if k < j {
        PowMonotone(2, k + 1, j);
      }
    }

    static lemma HalveAndDouble(b: nat, p: nat, radix: nat)
      requires b > 1 && p > 0 && b * p <= radix < (b + 1) * p
      ensures 1 <= Quot(b, 2) < b && Quot(b, 2) * (2 * p) <= radix < (Quot(b, 2) + 1) * (2 * p)
    {
      QuotRem(b, 2);
      MulAtLeast(p, Quot(b, 2) * 2, b);
      MulAtLeast(p, b + 1, Quot(b, 2) * 2 + 2);
      assert (Quot(b, 2) + 1) * (2 * p) == (Quot(b, 2) * 2 + 2) * p;
      assert Quot(b, 2) * (2 * p) == (Quot(b, 2) * 2) * p;
    }

    /** Writes the text, right adjusted and terminated, into the first l characters of p;
        returns where it starts, or -1 if the field is too small, which it is exactly if it
        cannot hold the text and the terminator. */
    method AsString(p: array<char>, l: nat, radix: Radix) returns (start: int)
      requires Valid() && l <= p.Length
      modifies p
      ensures Printed(p[..l], start, Text(Int(), radix))
      ensures forall k :: l <= k < p.Length ==> p[k] == old(p[k])
    {
      hide Value, Pow, Text, MagnitudeText;
      TextParts(positive, Magnitude(), radix);
      if l < 2 {
        TextNotEmpty(Int(), radix);
        return -1;
      }
      p[l - 1] := '\0';
      var len := TrimmedLength();
      if len == 0 {
        p[l - 2] := '0';
        assert p[..l][l - 2..] == "0" + ['\0'];
        return l - 2;
      }
      var dig := CopyDigits(this, length);
      assert dig[..length][..len] == dig[..len];
      var at := PrintDown(p, l, dig, len, radix);
      if at >= 0 && !positive {
        start := PrintSign(p, l, at, MagnitudeText(Magnitude(), radix));
      } else {
        start := at;
        assert positive ==> "" + MagnitudeText(Magnitude(), radix) == MagnitudeText(Magnitude(), radix);
      }
    }

    /** Puts a minus sign in front of a printed text, if there is room. */
    static method PrintSign(p: array<char>, l: nat, at: nat, ghost t: string) returns (start: int)
      requires at < l <= p.Length && Printed(p[..l], at, t)
      modifies p
      ensures Printed(p[..l], start, "-" + t)
      ensures forall k :: l <= k < p.Length ==> p[k] == old(p[k])
    {
      if at == 0 {
        return -1;
      }
      ghost var was := p[..l];
      p[at - 1] := '-';
      SignPrinted(was, p[..l], at, t);
      start := at - 1;
    }

    /** The text t, terminated, ends a field that holds it; -1 stands for a field too small. */
    static ghost predicate Printed(field: seq<char>, start: int, t: string) {
      if |t| + 1 <= |field| then
        start + |t| + 1 == |field| && field[start..] == t + ['\0']
      else
        start == -1
    }

    static lemma SignPrinted(was: seq<char>, now: seq<char>, at: nat, t: string)
      requires 0 < at < |was| == |now| && Printed(was, at, t)
      requires now[at - 1] == '-' && now[at..] == was[at..]
      ensures Printed(now, at - 1, "-" + t)
    {
      assert now[at - 1..] == ['-'] + now[at..];
      assert ['-'] + (t + ['\0']) == ("-" + t) + ['\0'];
    }

    static lemma TextParts(positive: bool, n: nat, radix: Radix)
      ensures n == 0 ==> Text(Signed(positive, n), radix) == "0"
      ensures n > 0 ==>
        Text(Signed(positive, n), radix) == (if positive then "" else "-") + MagnitudeText(n, radix)
    {}

    static lemma TextNotEmpty(x: int, radix: Radix)
      ensures |Text(x, radix)| >= 1
    {
      MagnitudeTextScans(Abs(x), radix);
    }

    /** The length without zero top digits. */
    method TrimmedLength() returns (len: nat)
      requires Valid()
      ensures len <= length && Trimmed(Digits()[..len])
      ensures Value(layout.Base(), Digits()[..len]) == Magnitude()
      ensures len == 0 <==> Magnitude() == 0
    {
      len := length;
      while len > 0 && digit[len - 1] == 0
        invariant 0 <= len <= length && forall k :: len <= k < length ==> digit[k] == 0
      {
        len := len - 1;
      }
      LeadingZeros(layout.Base(), Digits(), len);
      TrimmedZero(layout.Base(), Digits()[..len]);
    }

    /** Divides the digits down by the radix, writing characters from right to left below the
        terminator at l - 1. Each division leaves at most one zero top digit, which is dropped. */
    method PrintDown(p: array<char>, l: nat, dig: array<nat>, len0: nat, radix: Radix) returns (at: int)
      requires layout.Valid() && 1 <= l <= p.Length && 0 < len0 <= dig.Length && p[l - 1] == '\0'
      requires AllDigits(layout.Base(), dig[..len0]) && Trimmed(dig[..len0])
      modifies p, dig
      ensures Printed(p[..l], at, MagnitudeText(Value(layout.Base(), old(dig[..len0])), radix))
      ensures forall k :: l <= k < p.Length ==> p[k] == old(p[k])
    {
      hide Value, Pow, MagnitudeText;
      ghost var b: Base, v := layout.Base(), Value(layout.Base(), dig[..len0]);
      var len := len0;
      at := l - 1;
      NothingLeft(radix);
      while len > 0
        invariant 0 <= len <= len0 && 0 <= at <= l - 1
        invariant AllDigits(b, dig[..len]) && Trimmed(dig[..len])
        invariant MagnitudeText(v, radix) + ['\0'] == MagnitudeText(Value(b, dig[..len]), radix) + p[at..l]
        invariant forall k :: l <= k < p.Length ==> p[k] == old(p[k])
        decreases Value(b, dig[..len])
      {
        ghost var n := Value(b, dig[..len]);
        if at == 0 {
          TrimmedZero(b, dig[..len]);
          MagnitudeTextScans(n, radix);
          return -1;
        }
        ghost var rest := p[at..l];
        len := PrintDigit(p, at, dig, len, radix);
        at := at - 1;
        assert p[at..l] == [p[at]] + rest;
      }
      EmptyValue(b, dig[..len]);
      assert p[..l][at..] == p[at..l];
    }

    static lemma NothingLeft(radix: Radix)
      ensures MagnitudeText(0, radix) == []
    {}

    /** Writes the last character of a text in front of position `at` and divides the digits. */
    method PrintDigit(p: array<char>, at: nat, dig: array<nat>, len: nat, radix: Radix) returns (left: nat)
      requires layout.Valid() && 0 < at <= p.Length && 0 < len <= dig.Length
      requires AllDigits(layout.Base(), dig[..len]) && Trimmed(dig[..len])
      modifies p, dig
      ensures left <= len && AllDigits(layout.Base(), dig[..left]) && Trimmed(dig[..left])
      ensures Value(layout.Base(), dig[..left]) < Value(layout.Base(), old(dig[..len]))
      ensures MagnitudeText(Value(layout.Base(), old(dig[..len])), radix) ==
        MagnitudeText(Value(layout.Base(), dig[..left]), radix) + [p[at - 1]]
      ensures forall k :: 0 <= k < p.Length && k != at - 1 ==> p[k] == old(p[k])
    {
      hide Value, Pow;
      ghost var b: Base, s := layout.Base(), dig[..len];
      ghost var n := Value(b, s);
      TrimmedZero(b, s);
      QuotSmaller(n, radix);
      var r := DigitDivSingle(layout.Base(), dig, len, radix);
      QuotUnique(n, radix, Value(b, dig[..len]), r);
      DividingDropsOneDigit(b, s, dig[..len], radix, r);
      p[at - 1] := DigitChar(r);
      left := len;
      if dig[len - 1] == 0 {
        LeadingZeros(b, dig[..len], len - 1);
        assert dig[..len][..len - 1] == dig[..len - 1];
        left := len - 1;
      }
    }

    /** Writes the magnitude into the first n bytes of p, most significant first and padded with
        zeros in front; it fits exactly if the magnitude is below 256 to the n. */
    method Dump(p: array<nat>, n: nat) returns (ok: bool)
      requires Valid() && n <= p.Length && p != digit
      modifies p
      ensures ok <==> Magnitude() < Pow(256, n)
      ensures AllDigits(256, p[..n])
      ensures ok ==> BytesValue(p[..n]) == Magnitude()
      ensures !ok ==> forall k :: 0 <= k < n ==> p[k] == 0
      ensures forall k :: n <= k < p.Length ==> p[k] == old(p[k])
    {
      hide Value, Pow, BytesValue;
      var len := TrimmedLength();
      forall k | 0 <= k < n {
        p[k] := 0;
      }
      if len == 0 {
        BytesZero(p[..n]);
        assert Pow(256, n) > 0;
        return true;
      }
      ghost var s := Digits()[..len];
      assert s[len - 1] == digit[len - 1];
      var i := TopBytes(digit[len - 1]);
      var m := i + (len - 1) * layout.bytes;
      BytesNeeded(layout.bytes, s, i, m, n);
      if m > n {
        return false;
      }
      PutDigits(p, n, i, len);
      return true;
    }

    /** The number of bytes of a non-zero digit. */
    method TopBytes(d: nat) returns (i: nat)
      requires layout.Valid() && 0 < d < layout.Base()
      ensures 1 <= i <= layout.bytes && Pow(256, i - 1) <= d < Pow(256, i)
    {
      i := layout.bytes - 1;
      DivUnique(d, 1, d, 0);
      while i > 0 && Quot(d, Pow(256, i)) == 0
        invariant 0 <= i < layout.bytes && d < Pow(256, i + 1)
      {
        QuotRem(d, Pow(256, i));
        i := i - 1;
      }
      if i > 0 {
        QuotRem(d, Pow(256, i));
        MulAtLeast(Pow(256, i), 1, Quot(d, Pow(256, i)));
      }
      i := i + 1;
    }

    static lemma BytesNeeded(bytes: nat, s: seq<nat>, i: nat, m: nat, n: nat)
      requires bytes >= 1 && s != [] && 1 <= i && m == i + (|s| - 1) * bytes
      requires Pow(256, bytes) >= 2 && AllDigits(Pow(256, bytes), s)
      requires Pow(256, i - 1) <= s[|s| - 1] < Pow(256, i)
      ensures m <= n <==> Value(Pow(256, bytes), s) < Pow(256, n)
    {
      var j, t := |s| - 1, s[|s| - 1];
      TopDigit(Pow(256, bytes), s);
      PowPow(256, bytes, j);
      MulCommutes(bytes, j);
      PowAdd(256, i, bytes * j);
      PowAdd(256, i - 1, bytes * j);
      MulAtLeast(Pow(Pow(256, bytes), j), Pow(256, i - 1), t);
      MulAtLeast(Pow(Pow(256, bytes), j), t + 1, Pow(256, i));
      MulAtLeast(bytes, 0, j);
      assert m - 1 == (i - 1) + bytes * j;
      if m <= n { PowMonotone(256, m, n); } else { PowMonotone(256, n, m - 1); }
    }

    /** The dump of v so far: `written` holds the bytes above the low i bytes of digit j of s,
        which are next, and those of the digits below it. */
    static ghost predicate DumpState(bytes: nat, s: seq<nat>, v: nat, written: seq<nat>, j: nat, i: nat) {
      && bytes >= 1 && j < |s| && i <= bytes && AllDigits(256, written)
      && v == BytesValue(written) * Pow(256, i + j * bytes)
              + Rem(s[j], Pow(256, i)) * Pow(256, j * bytes) + Value(Pow(256, bytes), s[..j])
    }

    static lemma DumpStart(bytes: nat, s: seq<nat>, written: seq<nat>, i: nat)
      requires bytes >= 1 && s != [] && 1 <= i <= bytes && s[|s| - 1] < Pow(256, i)
      requires forall k :: 0 <= k < |written| ==> written[k] == 0
      ensures DumpState(bytes, s, Value(Pow(256, bytes), s), written, |s| - 1, i)
    {
      var j := |s| - 1;
      BytesZero(written);
      QuotUnique(s[j], Pow(256, i), 0, s[j]);
      PrefixStep(Pow(256, bytes), s, j);
      assert s[..j + 1] == s;
      PowPow(256, bytes, j);
      MulCommutes(bytes, j);
    }

    static lemma DumpByte(bytes: nat, s: seq<nat>, v: nat, written: seq<nat>, j: nat, i: nat)
      requires i > 0 && DumpState(bytes, s, v, written, j, i)
      ensures var byte := Rem(Quot(s[j], Pow(256, i - 1)), 256);
        DumpState(bytes, s, v, written + [byte], j, i - 1)
    {
      var byte := Rem(Quot(s[j], Pow(256, i - 1)), 256);
      BytesSnoc(written, byte);
      SplitByte(s[j], Pow(256, i - 1));
      assert Pow(256, i) == 256 * Pow(256, i - 1);
      MulAtLeast(bytes, 0, j);
      PowAdd(256, i, j * bytes);
      PowAdd(256, i - 1, j * bytes);
      ByteAlgebra(BytesValue(written), Pow(256, i - 1), Pow(256, j * bytes), byte, Rem(s[j], Pow(256, i - 1)));
    }

    // The low bytes of a digit, one byte at a time.
    static lemma SplitByte(d: nat, p: nat)
      requires p > 0
      ensures Rem(d, 256 * p) == Rem(Quot(d, p), 256) * p + Rem(d, p)
    {
      QuotRem(d, p);
      QuotRem(Quot(d, p), 256);
      var q, h, r := Quot(Quot(d, p), 256), Rem(Quot(d, p), 256), Rem(d, p);
      MulAtLeast(p, h + 1, 256);
      assert (q * 256 + h) * p == q * (256 * p) + h * p;
      MulAtLeast(p, 0, h);
      QuotUnique(d, 256 * p, q, h * p + r);
    }

    static lemma ByteAlgebra(w: int, p: int, z: int, byte: int, r: int)
      ensures w * ((256 * p) * z) + (byte * p + r) * z == (w * 256 + byte) * (p * z) + r * z
    {}

    static lemma DumpNextDigit(bytes: nat, s: seq<nat>, v: nat, written: seq<nat>, j: nat)
      requires j > 0 && DumpState(bytes, s, v, written, j, 0) && s[j - 1] < Pow(256, bytes)
      ensures DumpState(bytes, s, v, written, j - 1, bytes)
    {
      QuotUnique(s[j], 1, s[j], 0);
      QuotUnique(s[j - 1], Pow(256, bytes), 0, s[j - 1]);
      PrefixStep(Pow(256, bytes), s, j - 1);
      PowPow(256, bytes, j - 1);
      MulCommutes(bytes, j - 1);
      assert bytes + (j - 1) * bytes == j * bytes;
    }

    static lemma DumpDone(bytes: nat, s: seq<nat>, v: nat, written: seq<nat>)
      requires DumpState(bytes, s, v, written, 0, 0)
      ensures v == BytesValue(written)
    {
      QuotUnique(s[0], 1, s[0], 0);
      assert s[..0] == [];
    }

    /** Copies out the digits: the low i bytes of digit j, then all bytes of those below. */
    method PutDigits(p: array<nat>, n: nat, i0: nat, len: nat)
      requires Valid() && n <= p.Length && 0 < len <= length && p != digit
      requires 1 <= i0 <= layout.bytes && i0 + (len - 1) * layout.bytes <= n
      requires digit[len - 1] < Pow(256, i0)
      requires forall k :: 0 <= k < n ==> p[k] == 0
      modifies p
      ensures AllDigits(256, p[..n])
      ensures BytesValue(p[..n]) == Value(layout.Base(), Digits()[..len])
      ensures forall k :: n <= k < p.Length ==> p[k] == old(p[k])
    {
      hide Value, Pow;
      ghost var s := Digits()[..len];
      ghost var v := Value(layout.Base(), s);
      var j := len - 1;
      var i := i0;
      var pos := n - (i + j * layout.bytes);
      DumpStart(layout.bytes, s, p[..pos], i);
      while true
        invariant 0 <= j < len && 0 <= i <= layout.bytes && 0 <= pos <= n
        invariant pos + i + j * layout.bytes == n
        invariant DumpState(layout.bytes, s, v, p[..pos], j, i)
        invariant forall k :: n <= k < p.Length ==> p[k] == old(p[k])
        decreases j
      {
        pos := PutDigit(p, n, pos, j, i, s, v);
        i := 0;
        if j == 0 {
          break;
        }
        DumpNextDigit(layout.bytes, s, v, p[..pos], j);
        assert layout.bytes + (j - 1) * layout.bytes == j * layout.bytes;
        j := j - 1;
        i := layout.bytes;
      }
      DumpDone(layout.bytes, s, v, p[..pos]);
    }

    // The inner loop: the low i bytes of digit j, the most significant first.
    method PutDigit(p: array<nat>, n: nat, pos0: nat, j: nat, i0: nat, ghost s: seq<nat>, ghost v: nat)
        returns (pos: nat)
      requires Valid() && n <= p.Length && p != digit && j < |s| <= length && s == Digits()[..|s|]
      requires pos0 + i0 <= n && DumpState(layout.bytes, s, v, p[..pos0], j, i0)
      modifies p
      ensures pos == pos0 + i0 && DumpState(layout.bytes, s, v, p[..pos], j, 0)
      ensures forall k :: n <= k < p.Length ==> p[k] == old(p[k])
    {
      hide Value, Pow;
      var d := digit[j];
      var i := i0;
      pos := pos0;
      while i > 0
        invariant 0 <= i <= i0 && pos + i == pos0 + i0
        invariant DumpState(layout.bytes, s, v, p[..pos], j, i)
        invariant forall k :: n <= k < p.Length ==> p[k] == old(p[k])
      {
        DumpByte(layout.bytes, s, v, p[..pos], j, i);
        ghost var was := p[..pos];
        i := i - 1;
        p[pos] := Rem(Quot(d, Pow(256, i)), 256);
        assert p[..pos + 1] == was + [p[pos]];
        pos := pos + 1;
      }
    }

    /** The bytes already loaded, the last ones of the number: full digits and the low i bytes
        of the next. */
    static ghost predicate LoadState(bytes: nat, tail: seq<nat>, s: seq<nat>, d: nat, i: nat) {
      && bytes >= 1 && i < bytes && |tail| == i + |s| * bytes && d < Pow(256, i)
      && AllDigits(Pow(256, bytes), s)
      && BytesValue(tail) == d * Pow(256, |s| * bytes) + Value(Pow(256, bytes), s)
    }

    static lemma LoadNothing(bytes: nat)
      requires bytes >= 1
      ensures LoadState(bytes, [], [], 0, 0)
    {}

    static lemma LoadByte(bytes: nat, tail: seq<nat>, s: seq<nat>, d: nat, i: nat, c: nat)
      requires LoadState(bytes, tail, s, d, i) && c < 256
      ensures var d1 := d + c * Pow(256, i);
        && 0 <= d1 < Pow(256, i + 1)
        && (i + 1 < bytes ==> LoadState(bytes, [c] + tail, s, d1, i + 1))
        && (i + 1 == bytes ==> LoadState(bytes, [c] + tail, s + [d1], 0, 0))
    {
      var p, z := Pow(256, i), Pow(256, |s| * bytes);
      AddByte(d, c, p, z);
      BytesCons(c, tail);
      PowAdd(256, i, |s| * bytes);
      if i + 1 == bytes {
        FullDigit(bytes, s, d + c * p);
      }
    }

    static lemma AddByte(d: nat, c: nat, p: nat, z: nat)
      requires d < p && c < 256
      ensures 0 <= d + c * p < 256 * p
      ensures c * (p * z) + d * z == (d + c * p) * z
    {
      MulAtLeast(p, c + 1, 256);
      MulAtLeast(p, 0, c);
      assert (c + 1) * p == c * p + p;
    }

    static lemma FullDigit(bytes: nat, s: seq<nat>, d: nat)
      requires d < Pow(256, bytes) && AllDigits(Pow(256, bytes), s)
      ensures AllDigits(Pow(256, bytes), s + [d])
      ensures Value(Pow(256, bytes), s + [d]) == Value(Pow(256, bytes), s) + d * Pow(256, |s| * bytes)
      ensures |s + [d]| * bytes == |s| * bytes + bytes
    {
      ValueSnoc(Pow(256, bytes), s, d);
      PowPow(256, bytes, |s|);
      MulCommutes(bytes, |s|);
      assert (|s| + 1) * bytes == |s| * bytes + bytes;
    }

    /** When the first byte is not zero, the top digit is not zero either. */
    static lemma LoadTrimmed(bytes: nat, tail: seq<nat>, s: seq<nat>, d: nat, i: nat)
      requires LoadState(bytes, tail, s, d, i) && Pow(256, bytes) >= 2
      requires tail != [] ==> tail[0] > 0
      ensures i > 0 ==> d != 0
      ensures i == 0 ==> d == 0 && Trimmed(s)
      ensures d != 0 ==> AllDigits(Pow(256, bytes), s + [d]) && Value(Pow(256, bytes), s + [d]) == BytesValue(tail)
      ensures d == 0 ==> Value(Pow(256, bytes), s) == BytesValue(tail)
    {
      if i > 0 {
        PartialDigit(bytes, tail, s, d, i);
        PowMonotone(256, i, bytes);
        hide Value, Pow, BytesValue;
        FullDigit(bytes, s, d);
      } else {
        WholeDigits(bytes, tail, s, d);
      }
    }

    static lemma PartialDigit(bytes: nat, tail: seq<nat>, s: seq<nat>, d: nat, i: nat)
      requires LoadState(bytes, tail, s, d, i) && Pow(256, bytes) >= 2 && i > 0
      requires tail != [] ==> tail[0] > 0
      ensures d != 0
    {
      hide Value, Pow, BytesValue;
      MulAtLeast(bytes, 0, |s|);
      FirstByte(tail);
      PowMonotone(256, |s| * bytes, |tail| - 1);
      BoundInBytes(bytes, s);
    }

    static lemma WholeDigits(bytes: nat, tail: seq<nat>, s: seq<nat>, d: nat)
      requires LoadState(bytes, tail, s, d, 0) && Pow(256, bytes) >= 2
      requires tail != [] ==> tail[0] > 0
      ensures d == 0 && Trimmed(s) && Value(Pow(256, bytes), s) == BytesValue(tail)
    {
      assert Pow(256, 0) == 1;
      hide Value, Pow, BytesValue;
      if tail != [] {
        FirstByte(tail);
        LastDigitOf(bytes, s, |tail|);
      } else if s != [] {
        MulAtLeast(bytes, 1, |s|);
      }
    }

    static lemma FirstByte(tail: seq<nat>)
      requires tail != [] && tail[0] > 0
      ensures BytesValue(tail) >= Pow(256, |tail| - 1)
    {
      assert tail == [tail[0]] + tail[1..];
      BytesCons(tail[0], tail[1..]);
      MulAtLeast(Pow(256, |tail| - 1), 1, tail[0]);
    }

    static lemma BoundInBytes(bytes: nat, s: seq<nat>)
      requires Pow(256, bytes) >= 2 && AllDigits(Pow(256, bytes), s)
      ensures Value(Pow(256, bytes), s) < Pow(256, |s| * bytes)
    {
      ValueBound(Pow(256, bytes), s);
      PowPow(256, bytes, |s|);
      MulCommutes(bytes, |s|);
    }

    static lemma LastDigitOf(bytes: nat, s: seq<nat>, n: nat)
      requires bytes >= 1 && Pow(256, bytes) >= 2 && AllDigits(Pow(256, bytes), s)
      requires 0 < n == |s| * bytes && Value(Pow(256, bytes), s) >= Pow(256, n - 1)
      ensures Trimmed(s)
    {
      assert |s| >= 1;
      PowPow(256, bytes, |s| - 1);
      MulCommutes(bytes, |s| - 1);
      assert |s| * bytes == (|s| - 1) * bytes + bytes;
      PowMonotone(256, (|s| - 1) * bytes, n - 1);
      TopNonZero(Pow(256, bytes), s);
    }

    /** Reads a magnitude from n bytes, most significant first; the sign stays as it was. */
    method Load(p: array<nat>, n: nat)
      requires Valid() && n <= p.Length && AllDigits(256, p[..n]) && p != digit
      modifies this, digit
      ensures Normal() && (digit == old(digit) || fresh(digit)) && positive == old(positive)
      ensures Magnitude() == BytesValue(old(p[..n]))
      ensures Canonical() <==> Magnitude() > 0 || old(positive)
    {
      hide Value, Pow;
      var lo := 0;
      while lo < n && p[lo] == 0
        invariant 0 <= lo <= n && forall k :: 0 <= k < lo ==> p[k] == 0
      {
        lo := lo + 1;
      }
      ghost var input := p[..n];
      LeadingZeroBytes(input, lo);
      assert lo < n ==> input[lo] > 0;
      var bytes := layout.bytes;
      var room := Quot(n - lo + bytes - 1, bytes);
      QuotRem(n - lo + bytes - 1, bytes);
      Reallocate(room);
      var q := n;
      var d: nat := 0;
      var i: nat := 0;
      LoadNothing(bytes);
      assert input[n..] == [] && Digits() == [];
      while q > lo
        invariant lo <= q <= n && Valid() && positive == old(positive)
        invariant (digit == old(digit) || fresh(digit)) && p != digit && room <= digit.Length
        invariant p[..n] == input
        invariant LoadState(bytes, input[q..], Digits(), d, i)
      {
        q := q - 1;
        assert p[q] == p[..n][q] == input[q];
        assert input[q..] == [input[q]] + input[q + 1..];
        d, i := LoadStep(p[q], d, i, input[q + 1..], n - lo, room);
      }
      FinishLoad(input[lo..], d, i);
      TrimmedZero(layout.Base(), Digits());
    }

    /** Takes one more byte into the current digit, and appends it once it is full. */
    method LoadStep(c: nat, d: nat, i: nat, ghost tail: seq<nat>, ghost total: nat, ghost room: nat)
      returns (d': nat, i': nat)
      requires Valid() && LoadState(layout.bytes, tail, Digits(), d, i) && c < 256
      requires |tail| < total && room * layout.bytes >= total && room <= digit.Length
      modifies this, digit
      ensures Valid() && digit == old(digit) && positive == old(positive)
      ensures LoadState(layout.bytes, [c] + tail, Digits(), d', i')
    {
      hide Value, Pow;
      LoadByte(layout.bytes, tail, Digits(), d, i, c);
      d' := d + c * Pow(256, i);
      i' := i + 1;
      if i' == layout.bytes {
        RoomFor(layout.bytes, length, |tail| + 1, total, room);
        Append(d');
        d' := 0;
        i' := 0;
      }
    }

    /** Appends the last, partial digit. */
    method FinishLoad(ghost tail: seq<nat>, d: nat, i: nat)
      requires Valid() && LoadState(layout.bytes, tail, Digits(), d, i) && (tail != [] ==> tail[0] > 0)
      modifies this, digit
      ensures Normal() && (digit == old(digit) || fresh(digit)) && positive == old(positive)
      ensures Magnitude() == BytesValue(tail)
    {
      LoadTrimmed(layout.bytes, tail, Digits(), d, i);
      if d != 0 {
        PowMonotone(256, i, layout.bytes);
        Append(d);
      }
    }

    static lemma RoomFor(bytes: nat, len: nat, used: nat, total: nat, room: nat)
      requires bytes >= 1 && used == bytes + len * bytes && used <= total && room * bytes >= total
      ensures len < room
    {
      if len >= room {
        MulAtLeast(bytes, room, len);
      }
    }

    static lemma LeadingZeroBytes(s: seq<nat>, lo: nat)
      requires lo <= |s| && forall k :: 0 <= k < lo ==> s[k] == 0
      ensures BytesValue(s) == BytesValue(s[lo..])
      decreases lo
    {
      if lo > 0 {
        LeadingZeroBytes(s[1..], lo - 1);
        assert s == [s[0]] + s[1..] && s[1..][lo - 1..] == s[lo..];
        BytesCons(s[0], s[1..]);
      } else {
        assert s[0..] == s;
      }
    }
  }
}
