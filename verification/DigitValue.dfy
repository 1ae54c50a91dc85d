/** The number a digit string stands for, least significant digit first, and the laws that
    connect it to prefixes, suffixes, leading zeros and comparison. */
module DigitValue {
  import opened Powers

  ghost predicate AllDigits(b: nat, s: seq<nat>) {
    forall k :: 0 <= k < |s| ==> s[k] < b
  }

  ghost function Value(b: nat, s: seq<nat>): (v: nat) {
    if s == [] then 0 else s[0] + b * Value(b, s[1..])
  }

  /** The two base cases, for proofs that hide the definitions. */
  lemma BaseCases(b: nat)
    ensures Value(b, []) == 0 && Pow(b, 0) == 1
  {}

  lemma {:induction false} ValueSnoc(b: nat, s: seq<nat>, d: nat)
    ensures Value(b, s + [d]) == Value(b, s) + d * Pow(b, |s|)
  {
    if s == [] {
      assert s + [d] == [d];
    } else {
      assert (s + [d])[1..] == s[1..] + [d];
      ValueSnoc(b, s[1..], d);
      Distribute(b, Value(b, s[1..]), Pow(b, |s| - 1), d);
    }
  }

  /** One more digit of a prefix, which is what one round of an upward loop adds. */
  lemma PrefixStep(b: nat, s: seq<nat>, i: nat)
    requires i < |s|
    ensures Value(b, s[..i + 1]) == Value(b, s[..i]) + s[i] * Pow(b, i)
  {
    assert s[..i + 1] == s[..i] + [s[i]];
    ValueSnoc(b, s[..i], s[i]);
  }

  lemma {:induction false} ValueConcat(b: nat, s: seq<nat>, t: seq<nat>)
    ensures Value(b, s + t) == Value(b, s) + Pow(b, |s|) * Value(b, t)
  {
    if s == [] {
      assert s + t == t;
    } else {
      assert (s + t)[1..] == s[1..] + t;
      ValueConcat(b, s[1..], t);
      Distribute(b, Value(b, s[1..]), Pow(b, |s| - 1), Value(b, t));
    }
  }

  lemma ValueSplit(b: nat, s: seq<nat>, k: nat)
    requires k <= |s|
    ensures Value(b, s) == Value(b, s[..k]) + Pow(b, k) * Value(b, s[k..])
  {
    assert s == s[..k] + s[k..];
    ValueConcat(b, s[..k], s[k..]);
  }

  lemma {:induction false} ValueBound(b: Base, s: seq<nat>)
    requires AllDigits(b, s)
    ensures Value(b, s) < Pow(b, |s|)
  {
    if s != [] {
      ValueBound(b, s[1..]);
      MulLess(b, Value(b, s[1..]), Pow(b, |s| - 1));
      assert s[0] < b;
    }
  }

  lemma {:induction false} ValueZeros(b: nat, s: seq<nat>)
    requires forall k :: 0 <= k < |s| ==> s[k] == 0
    ensures Value(b, s) == 0
  {
    if s != [] {
      ValueZeros(b, s[1..]);
    }
  }

  /** Leading zeros do not change the value. */
  lemma LeadingZeros(b: nat, s: seq<nat>, k: nat)
    requires k <= |s| && forall j :: k <= j < |s| ==> s[j] == 0
    ensures Value(b, s) == Value(b, s[..k])
  {
    ValueSplit(b, s, k);
    ValueZeros(b, s[k..]);
  }

  /** A non-zero top digit puts the value at or above that digit's weight. */
  lemma TopDigit(b: Base, s: seq<nat>)
    requires s != [] && AllDigits(b, s)
    ensures var t := s[|s| - 1]; var p := Pow(b, |s| - 1);
      t * p <= Value(b, s) < (t + 1) * p
  {
    var n := |s| - 1;
    PrefixStep(b, s, n);
    assert s[..n + 1] == s;
    ValueBound(b, s[..n]);
  }

  /** A string of digits is zero in value only if every digit is zero. */
  lemma NonZeroTop(b: Base, s: seq<nat>)
    requires s != [] && AllDigits(b, s) && s[|s| - 1] != 0
    ensures Pow(b, |s| - 1) <= Value(b, s) < Pow(b, |s|)
  {
    TopDigit(b, s);
    ValueBound(b, s);
    MulAtLeast(Pow(b, |s| - 1), 1, s[|s| - 1]);
  }

  /** A value that reaches the weight of the top digit makes that digit non-zero. */
  lemma TopNonZero(b: Base, s: seq<nat>)
    requires s != [] && AllDigits(b, s) && Value(b, s) >= Pow(b, |s| - 1)
    ensures s[|s| - 1] != 0
  {
    TopDigit(b, s);
  }

  /** No superfluous leading digit. */
  ghost predicate Trimmed(s: seq<nat>) {
    s != [] ==> s[|s| - 1] != 0
  }

  lemma TrimmedZero(b: Base, s: seq<nat>)
    requires AllDigits(b, s) && Trimmed(s)
    ensures Value(b, s) == 0 <==> s == []
  {
    if s != [] {
      NonZeroTop(b, s);
    }
  }

  /** A longer trimmed string stands for a larger number. */
  lemma LongerIsLarger(b: Base, s: seq<nat>, t: seq<nat>)
    requires AllDigits(b, s) && AllDigits(b, t) && Trimmed(t) && |s| < |t|
    ensures Value(b, s) < Value(b, t)
  {
    ValueBound(b, s);
    NonZeroTop(b, t);
    PowMonotone(b, |s|, |t| - 1);
  }

  /** Two strings of one length that agree above position i are ordered by digit i. */
  lemma DecidedAt(b: Base, s: seq<nat>, t: seq<nat>, i: nat)
    requires AllDigits(b, s) && AllDigits(b, t) && |s| == |t| && i < |s|
    requires s[i + 1..] == t[i + 1..] && s[i] < t[i]
    ensures Value(b, s) < Value(b, t)
  {
    hide Value, Pow;
    ValueSplit(b, s, i + 1);
    ValueSplit(b, t, i + 1);
    TopDigit(b, s[..i + 1]);
    TopDigit(b, t[..i + 1]);
    MulAtLeast(Pow(b, i), s[i] + 1, t[i]);
  }

  /** A number has one digit string of a given length. */
  lemma {:induction false} ValueInjective(b: Base, s: seq<nat>, t: seq<nat>)
    requires AllDigits(b, s) && AllDigits(b, t) && |s| == |t|
    requires Value(b, s) == Value(b, t)
    ensures s == t
  {
    if s != [] {
      var vs, vt := Value(b, s[1..]), Value(b, t[1..]);
      DivUnique(Value(b, s), b, vs, s[0]);
      DivUnique(Value(b, t), b, vt, t[0]);
      ValueInjective(b, s[1..], t[1..]);
      assert s == [s[0]] + s[1..] && t == [t[0]] + t[1..];
    }
  }

  /** ... and exactly one trimmed digit string of any length. */
  lemma TrimmedUnique(b: Base, s: seq<nat>, t: seq<nat>)
    requires AllDigits(b, s) && AllDigits(b, t) && Trimmed(s) && Trimmed(t)
    requires Value(b, s) == Value(b, t)
    ensures s == t
  {
    if |s| < |t| {
      LongerIsLarger(b, s, t);
    } else if |t| < |s| {
      LongerIsLarger(b, t, s);
    } else {
      ValueInjective(b, s, t);
    }
  }
}
