/** Numbers as text in a radix from 2 to 36, and as bytes, most significant first: what the
    conversions of BigInt are measured against. */
module RadixText {
  import opened Powers
  import opened IntDivision

  type Radix = r: nat | 2 <= r <= 36 witness 2

  /** The character printed for a digit. */
  function DigitChar(d: nat): char
    requires d < 36
  {
    if d < 10 then '0' + (d as char) else 'A' + ((d - 10) as char)
  }

  function ToUpper(c: char): char {
    if 'a' <= c <= 'z' then c - 'a' + 'A' else c
  }

  /** The number a character is scanned as, in either case; 36 for no digit at all. */
  function ScanValue(c: char): (d: nat)
    ensures d <= 36
  {
    var u := ToUpper(c);
    if u < '0' then 36 else if u <= '9' then (u - '0') as nat
    else if u < 'A' then 36 else if u <= 'Z' then (u - 'A') as nat + 10 else 36
  }

  predicate Scans(c: char, radix: nat) {
    ScanValue(c) < 36 && ScanValue(c) < radix
  }

  /** Which characters are digits: the decimal ones, and the letters of either case for ten and
      more. */
  lemma ScanValueExactly(c: char)
    ensures '0' <= c <= '9' ==> ScanValue(c) == c as int - '0' as int
    ensures 'A' <= c <= 'Z' ==> ScanValue(c) == c as int - 'A' as int + 10
    ensures 'a' <= c <= 'z' ==> ScanValue(c) == c as int - 'a' as int + 10
    ensures !('0' <= c <= '9' || 'A' <= c <= 'Z' || 'a' <= c <= 'z') ==> ScanValue(c) == 36
    ensures forall radix :: Scans(c, radix) <==> ScanValue(c) < 36 && ScanValue(c) < radix
  {}

  lemma DigitCharScans(d: nat, radix: nat)
    requires d < radix && d < 36
    ensures Scans(DigitChar(d), radix) && ScanValue(DigitChar(d)) == d
    ensures DigitChar(d) != '-' && DigitChar(d) != '+'
  {}

  ghost predicate AllScan(s: seq<char>, radix: nat) {
    forall k :: 0 <= k < |s| ==> Scans(s[k], radix)
  }

  /** Where a scan that starts at `from` stops: at the first character that is no digit, or at the
      end. */
  function ScanEnd(s: seq<char>, from: nat, radix: nat): (end: nat)
    requires from <= |s|
    ensures from <= end <= |s| && AllScan(s[from..end], radix)
    ensures end < |s| ==> !Scans(s[end], radix)
    decreases |s| - from
  {
    if from < |s| && Scans(s[from], radix) then
      var end := ScanEnd(s, from + 1, radix);
      assert s[from..end] == [s[from]] + s[from + 1..end];
      end
    else from
  }

  /** There is only one such place. */
  lemma {:induction false} ScanEndUnique(s: seq<char>, from: nat, radix: nat, end: nat)
    requires from <= end <= |s| && AllScan(s[from..end], radix)
    requires end < |s| ==> !Scans(s[end], radix)
    ensures end == ScanEnd(s, from, radix)
    decreases end - from
  {
    if from < end {
      assert s[from..end][0] == s[from] && s[from..end][1..] == s[from + 1..end];
      ScanEndUnique(s, from + 1, radix, end);
    }
  }

  predicate Minus(s: seq<char>) {
    s != [] && s[0] == '-'
  }

  /** The number that a digit text appended to a number m stands for. */
  ghost function TextValue(m: nat, s: seq<char>, radix: nat): nat
  {
    if s == [] then m
    else TextValue(m, s[..|s| - 1], radix) * radix + ScanValue(s[|s| - 1])
  }

  lemma TextValueSnoc(m: nat, s: seq<char>, c: char, radix: nat)
    requires AllScan(s, radix) && Scans(c, radix)
    ensures AllScan(s + [c], radix)
    ensures TextValue(m, s + [c], radix) == TextValue(m, s, radix) * radix + ScanValue(c)
  {
    assert (s + [c])[..|s + [c]| - 1] == s;
  }

  /** The text of a magnitude; empty for zero. */
  ghost function MagnitudeText(n: nat, radix: Radix): string
    decreases n
  {
    if n == 0 then ""
    else
      QuotSmaller(n, radix);
      MagnitudeText(Quot(n, radix), radix) + [DigitChar(Rem(n, radix))]
  }

  lemma QuotSmaller(n: nat, radix: nat)
    requires n > 0 && radix >= 2
    ensures Quot(n, radix) < n
  {
    QuotRem(n, radix);
    MulAtLeast(Quot(n, radix), 2, radix);
    MulCommutes(Quot(n, radix), radix);
  }

  /** The text of an integer. */
  ghost function Text(x: int, radix: Radix): string {
    if x == 0 then "0" else (if x < 0 then "-" else "") + MagnitudeText(Abs(x), radix)
  }

  // The sign and the digits of a text.
  function SignLength(s: seq<char>): nat {
    if s != [] && (s[0] == '-' || s[0] == '+') then 1 else 0
  }

  ghost predicate IsNumber(s: seq<char>, radix: nat) {
    AllScan(s[SignLength(s)..], radix)
  }

  ghost function TextInt(s: seq<char>, radix: nat): int {
    Signed(!Minus(s), TextValue(0, s[SignLength(s)..], radix))
  }

  lemma {:induction false} MagnitudeTextScans(n: nat, radix: Radix)
    ensures AllScan(MagnitudeText(n, radix), radix)
    ensures TextValue(0, MagnitudeText(n, radix), radix) == n
    ensures n > 0 ==> MagnitudeText(n, radix) != "" && SignLength(MagnitudeText(n, radix)) == 0
    decreases n
  {
    hide DigitChar, ScanValue;
    if n > 0 {
      QuotSmaller(n, radix);
      QuotRem(n, radix);
      var head, d := MagnitudeText(Quot(n, radix), radix), Rem(n, radix);
      MagnitudeTextScans(Quot(n, radix), radix);
      DigitCharScans(d, radix);
      TextValueSnoc(0, head, DigitChar(d), radix);
      SignLengthSnoc(head, DigitChar(d));
    }
  }

  lemma SignLengthSnoc(s: seq<char>, c: char)
    requires s != [] ==> SignLength(s) == 0
    requires c != '-' && c != '+'
    ensures SignLength(s + [c]) == 0
  {}

  /** Scanning the text of any integer gives the integer back. */
  lemma TextRoundTrip(x: int, radix: Radix)
    ensures IsNumber(Text(x, radix), radix) && TextInt(Text(x, radix), radix) == x
  {
    var t := Text(x, radix);
    MagnitudeTextScans(Abs(x), radix);
    if x == 0 {
      DigitCharScans(0, radix);
      assert t[0..] == "" + ['0'];
      TextValueSnoc(0, "", '0', radix);
    } else if x < 0 {
      assert t[1..] == MagnitudeText(Abs(x), radix);
    } else {
      assert t[0..] == MagnitudeText(x, radix);
    }
  }

  // ---- What is printed ---------------------------------------------------------------------

  /** The characters of the digits, in order. */
  const ALPHABET := "0123456789ABCDEFGHIJKLMNOPQRSTUVWXYZ"

  lemma DigitCharIs(d: nat)
    requires d < 36
    ensures |ALPHABET| == 36 && DigitChar(d) == ALPHABET[d]
  {}

  /** A text is a minus sign for a negative number, and then the digits of the magnitude: k places
      from the right, what is left of dividing by the radix k times, in the alphabet. There is no
      leading zero but for zero itself. */
  lemma TextAt(x: int, radix: Radix, k: nat)
    requires k < |Text(x, radix)| - if x < 0 then 1 else 0
    ensures var t := Text(x, radix); var d := Rem(Quot(Abs(x), Pow(radix, k)), radix);
      && |ALPHABET| == 36 && t[|t| - 1 - k] == ALPHABET[d]
      && (x < 0 ==> t[0] == '-') && (t[if x < 0 then 1 else 0] == '0' <==> x == 0)
  {
    hide MagnitudeText, Pow, DigitChar, ALPHABET;
    if x == 0 {
      TextOfZero(radix);
    } else {
      MagnitudeTextAt(Abs(x), radix, k);
    }
  }

  lemma TextOfZero(radix: Radix)
    ensures Text(0, radix) == "0"
    ensures |ALPHABET| == 36 && ALPHABET[0] == '0' && Rem(Quot(0, Pow(radix, 0)), radix) == 0
  {
    QuotUnique(0, 1, 0, 0);
    QuotUnique(0, radix, 0, 0);
    DigitCharIs(0);
  }

  lemma {:induction false} MagnitudeTextAt(n: nat, radix: Radix, k: nat)
    requires k < |MagnitudeText(n, radix)|
    ensures var t := MagnitudeText(n, radix); var d := Rem(Quot(n, Pow(radix, k)), radix);
      |ALPHABET| == 36 && t[|t| - 1 - k] == ALPHABET[d] && t[0] != '0'
    decreases n
  {
    hide DigitChar, ALPHABET;
    QuotSmaller(n, radix);
    var q, d := Quot(n, radix), Rem(n, radix);
    DigitCharIs(d);
    DigitCharNotZero(d);
    QuotRem(n, radix);
    if q > 0 {
      MagnitudeTextAt(q, radix, if k > 0 then k - 1 else 0);
    }
    if k > 0 {
      QuotTwice(n, radix, Pow(radix, k - 1));
    } else {
      QuotUnique(n, 1, n, 0);
    }
  }

  lemma DigitCharNotZero(d: nat)
    requires d < 36
    ensures DigitChar(d) == '0' <==> d == 0
  {}

  // Dividing by one number and then by another is dividing by their product.
  lemma QuotTwice(n: nat, x: nat, y: nat)
    requires x > 0 && y > 0
    ensures x * y > 0 && Quot(n, x * y) == Quot(Quot(n, x), y)
  {
    QuotRem(n, x);
    QuotRem(Quot(n, x), y);
    var q, r := Quot(Quot(n, x), y), Rem(Quot(n, x), y);
    MulAtLeast(x, r + 1, y);
    MulLess(x, 0, y);
    assert (q * y + r) * x == q * (x * y) + r * x && (r + 1) * x == r * x + x;
    assert r * x >= 0 by { MulAtLeast(x, 0, r); }
    QuotUnique(n, x * y, q, r * x + Rem(n, x));
  }

  // ---- Upper and lower case, and signs -----------------------------------------------------

  /** The same character, or the same letter in the other case. */
  predicate SameLetter(c: char, d: char) {
    || c == d
    || ('a' <= c <= 'z' && d as int == c as int - 'a' as int + 'A' as int)
    || ('a' <= d <= 'z' && c as int == d as int - 'a' as int + 'A' as int)
  }

  ghost predicate SameButCase(s: seq<char>, t: seq<char>) {
    |s| == |t| && forall i :: 0 <= i < |s| ==> SameLetter(s[i], t[i])
  }

  lemma SameLetterScans(c: char, d: char)
    requires SameLetter(c, d)
    ensures ScanValue(c) == ScanValue(d) && (c == '-' <==> d == '-') && (c == '+' <==> d == '+')
  {}

  lemma {:induction false} CaseKeepsValue(m: nat, s: seq<char>, t: seq<char>, radix: nat)
    requires SameButCase(s, t)
    ensures TextValue(m, s, radix) == TextValue(m, t, radix) && (AllScan(s, radix) <==> AllScan(t, radix))
  {
    hide SameLetter, ScanValue;
    forall i | 0 <= i < |s| ensures ScanValue(s[i]) == ScanValue(t[i]) {
      SameLetterScans(s[i], t[i]);
    }
    if s != [] {
      CaseKeepsValue(m, s[..|s| - 1], t[..|t| - 1], radix);
    }
  }

  /** Texts that differ in the case of letters only denote the same number, if any. */
  lemma CaseDoesNotMatter(s: seq<char>, t: seq<char>, radix: nat)
    requires SameButCase(s, t)
    ensures IsNumber(s, radix) <==> IsNumber(t, radix)
    ensures TextInt(s, radix) == TextInt(t, radix)
  {
    hide SameLetter, ScanValue;
    if s != [] {
      SameLetterScans(s[0], t[0]);
    }
    CaseKeepsValue(0, s[SignLength(s)..], t[SignLength(t)..], radix);
  }

  /** In whatever case the letters of its text are, an integer is scanned from it. */
  lemma TextInAnyCase(x: int, radix: Radix, s: seq<char>)
    requires SameButCase(s, Text(x, radix))
    ensures IsNumber(s, radix) && TextInt(s, radix) == x
  {
    TextRoundTrip(x, radix);
    CaseDoesNotMatter(s, Text(x, radix), radix);
  }

  /** A plus sign changes nothing, a minus sign the number's sign; there is one sign at most. */
  lemma SignInFront(s: seq<char>, radix: nat)
    requires SignLength(s) == 0
    ensures IsNumber("+" + s, radix) <==> IsNumber(s, radix)
    ensures IsNumber("-" + s, radix) <==> IsNumber(s, radix)
    ensures TextInt("+" + s, radix) == TextInt(s, radix) == 0 - TextInt("-" + s, radix)
    ensures !IsNumber("+-" + s, radix) && !IsNumber("-+" + s, radix)
  {
    assert ("+" + s)[1..] == s && ("-" + s)[1..] == s && s[0..] == s;
    assert ("+-" + s)[1..][0] == '-' && ("-+" + s)[1..][0] == '+';
  }

  /** The length of a text counts the digits: the magnitude reaches the power below it and not
      the power at it. */
  lemma {:induction false} TextLength(n: nat, radix: Radix)
    requires n > 0
    ensures MagnitudeText(n, radix) != ""
    ensures Pow(radix, |MagnitudeText(n, radix)| - 1) <= n < Pow(radix, |MagnitudeText(n, radix)|)
    decreases n
  {
    QuotSmaller(n, radix);
    QuotRem(n, radix);
    var q := Quot(n, radix);
    if q > 0 {
      TextLength(q, radix);
      LengthStep(radix, Pow(radix, |MagnitudeText(q, radix)| - 1), q, Rem(n, radix), n);
    } else {
      assert Pow(radix, 0) == 1;
    }
  }

  lemma LengthStep(r: nat, p: nat, q: nat, d: nat, n: nat)
    requires n == q * r + d && d < r && p <= q < r * p
    ensures r * p <= n < r * (r * p)
  {
    MulCommutes(q, r);
    MulAtLeast(r, p, q);
    MulAtLeast(r, q + 1, r * p);
    assert r * (q + 1) == r * q + r;
  }

  lemma {:induction false} PowBaseMonotone(x: nat, y: nat, n: nat)
    requires x <= y
    ensures Pow(x, n) <= Pow(y, n)
  {
    if n > 0 {
      PowBaseMonotone(x, y, n - 1);
      MulAtLeast(Pow(x, n - 1), x, y);
      MulAtLeast(y, Pow(x, n - 1), Pow(y, n - 1));
    }
  }

  /** What `digits` relies on: a magnitude of at most `total` bits has no more characters than
      total / bits, rounded up, when the radix reaches two to the `bits`. */
  lemma TextFits(n: nat, radix: Radix, bits: nat, total: nat)
    requires n < Pow(2, total) && bits >= 1 && Pow(2, bits) <= radix
    ensures |MagnitudeText(n, radix)| <= Quot(total + bits - 1, bits)
  {
    var len := |MagnitudeText(n, radix)|;
    QuotRem(total + bits - 1, bits);
    if n > 0 && len > Quot(total + bits - 1, bits) {
      TextLength(n, radix);
      MulAtLeast(bits, Quot(total + bits - 1, bits), len - 1);
      PowPow(2, bits, len - 1);
      PowBaseMonotone(Pow(2, bits), radix, len - 1);
      MulCommutes(bits, len - 1);
      assert bits * (len - 1) >= total;
      PowMonotone(2, total, bits * (len - 1));
      assert false;
    }
  }

  /** The number that bytes stand for, most significant first. */
  ghost function BytesValue(s: seq<nat>): nat {
    if s == [] then 0 else BytesValue(s[..|s| - 1]) * 256 + s[|s| - 1]
  }

  lemma BytesSnoc(s: seq<nat>, c: nat)
    ensures BytesValue(s + [c]) == BytesValue(s) * 256 + c
  {
    assert (s + [c])[..|s + [c]| - 1] == s;
  }

  lemma {:induction false} BytesCons(c: nat, s: seq<nat>)
    ensures BytesValue([c] + s) == c * Pow(256, |s|) + BytesValue(s)
  {
    if s == [] {
      assert [c] + s == [] + [c];
      BytesSnoc([], c);
    } else {
      var h, l := s[..|s| - 1], s[|s| - 1];
      assert [c] + s == ([c] + h) + [l];
      BytesSnoc([c] + h, l);
      BytesCons(c, h);
      assert (c * Pow(256, |h|) + BytesValue(h)) * 256 == c * (256 * Pow(256, |h|)) + BytesValue(h) * 256;
    }
  }

  lemma {:induction false} BytesZero(s: seq<nat>)
    requires forall k :: 0 <= k < |s| ==> s[k] == 0
    ensures BytesValue(s) == 0
  {
    if s != [] {
      BytesZero(s[..|s| - 1]);
    }
  }
}
