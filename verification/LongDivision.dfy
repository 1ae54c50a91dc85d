/** Long division of digit strings (Knuth's algorithm D as bigint.cpp writes it): the guess of
    a quotient digit, multiply-and-subtract, add-back, the division loop, and the scaling that
    callers apply first. A pointer into the middle of an array is an array and an offset. */
module LongDivision {
  import opened Powers
  import opened DigitValue
  import opened DigitStrings

  /** The first guess, from two dividend digits and one divisor digit. */
  function InitialGuess(b: Base, r0: nat, r1: nat, y0: nat): nat
    requires y0 > 0
  {
    if y0 == r0 then b - 1 else Quot(r0 * b + r1, y0)
  }

  lemma InitialGuessIsDigit(b: Base, r0: nat, r1: nat, y0: nat)
    requires 0 < y0 && r0 <= y0 < b && r1 < b
    ensures InitialGuess(b, r0, r1, y0) < b
    ensures r0 * b + r1 < b * b
    ensures InitialGuess(b, r0, r1, y0) * y0 <= r0 * b + r1
    ensures r0 < y0 ==> r0 * b + r1 < (InitialGuess(b, r0, r1, y0) + 1) * y0
  {
    TwoDigitsFit(b, r0, r1);
    if r0 < y0 {
      MulLess(b, r0, y0);
      QuotientIsDigit(b, r0 * b + r1, y0);
    } else {
      MulAtLeast(y0, b - 1, b);
      MulCommutes(b, y0);
    }
  }

  lemma TwoDigitsFit(b: Base, r0: nat, r1: nat)
    requires r0 < b && r1 < b
    ensures r0 * b + r1 < b * b
  {
    MulLess(b, r0, b);
  }

  lemma QuotientIsDigit(b: Base, x: nat, y0: nat)
    requires 0 < y0 && x < y0 * b
    ensures Quot(x, y0) < b
    ensures Quot(x, y0) * y0 <= x < (Quot(x, y0) + 1) * y0
  {
    MulCommutes(b, y0);
    DivBound(x, y0, b);
    QuotRem(x, y0);
    assert (Quot(x, y0) + 1) * y0 == Quot(x, y0) * y0 + y0;
  }

  lemma ValueOfTwo(b: nat, s: seq<nat>)
    requires |s| == 2
    ensures Value(b, s) == s[0] + b * s[1]
  {
    assert s[1..][1..] == [];
    assert Value(b, s[1..]) == s[1];
  }

  lemma ValueOfThree(b: nat, s: seq<nat>)
    requires |s| == 3
    ensures Value(b, s) == s[0] + b * (s[1] + b * s[2])
  {
    ValueOfTwo(b, s[1..]);
  }

  /** Guesses a quotient digit from the three top digits of the dividend window, ending at
      `rt`, and the two top digits of the divisor, ending at `yt`. The answer is the largest
      number, up to the first guess, whose product with the two divisor digits does not exceed
      the three dividend digits. A divisor scaled to at least half the base needs at most two
      corrections. */
  method GuessQ(b: Base, r: array<nat>, rt: nat, y: array<nat>, yt: nat) returns (q: nat)
    requires 2 <= rt < r.Length && 1 <= yt < y.Length
    requires AllDigits(b, r[rt - 2..rt + 1]) && AllDigits(b, y[yt - 1..yt + 1])
    requires 0 < y[yt] && r[rt] <= y[yt]
    ensures q < b
    ensures var top3, top2 := Value(b, r[rt - 2..rt + 1]), Value(b, y[yt - 1..yt + 1]);
      var first := InitialGuess(b, r[rt], r[rt - 1], y[yt]);
      && q <= first
      && q * top2 <= top3
      && (q == first || (q + 1) * top2 > top3)
      && (2 * y[yt] >= b - 1 ==> first <= q + 2)
  {
    ghost var s, u := y[yt - 1..yt + 1], r[rt - 2..rt + 1];
    assert s[0] == y[yt - 1] && s[1] == y[yt] && u[2] == r[rt] && u[1] == r[rt - 1];
    ghost var first := InitialGuess(b, r[rt], r[rt - 1], y[yt]);
    InitialGuessIsDigit(b, r[rt], r[rt - 1], y[yt]);
    q := if y[yt] == r[rt] then b - 1 else Quot(Two(b, r[rt] * b + r[rt - 1]), y[yt]);
    var t := new nat[3];
    while true
      invariant q <= first && q < b
      invariant q == first || (q + 1) * Value(b, s) > Value(b, u)
      decreases q
    {
      TopProduct(b, q, s);
      var p := Two(b, q * y[yt - 1]);
      t[0] := Low(b, p);
      p := Two(b, High(b, p) + q * y[yt]);
      t[1] := Low(b, p);
      p := High(b, p);
      t[2] := Low(b, p);
      assert t[0..3] == [t[0], t[1], t[2]];
      var cmp := DigitCmp(b, t, 0, r, rt - 2, 3);
      if cmp <= 0 {
        AtMostTwoCorrections(b, u, s, first, q);
        return;
      }
      assert q != 0;
      q := q - 1;
    }
  }

  // The three digits that guess_q compares are those of q times the two divisor digits.
  lemma TopProduct(b: Base, q: nat, s: seq<nat>)
    requires |s| == 2 && AllDigits(b, s) && q < b
    ensures 0 <= q * s[0] < b * b
    ensures 0 <= High(b, q * s[0]) + q * s[1] < b * b
    ensures var p0: nat := q * s[0]; var p1: nat := High(b, p0) + q * s[1]; var p2 := High(b, p1);
      && Low(b, p2) == p2
      && Value(b, [Low(b, p0), Low(b, p1), p2]) == q * Value(b, s)
      && AllDigits(b, [Low(b, p0), Low(b, p1), p2])
  {
    hide Value, Pow, Low, High, AllDigits;
    var p0: nat, p1: nat := TopProductCarried(b, q, s);
    var low := [Low(b, p0), Low(b, p1)];
    PlaceCarry(b, low, High(b, p1), q * Value(b, s));
    assert low + [High(b, p1)] == [Low(b, p0), Low(b, p1), High(b, p1)];
  }

  lemma TopProductCarried(b: Base, q: nat, s: seq<nat>) returns (p0: nat, p1: nat)
    requires |s| == 2 && AllDigits(b, s) && q < b
    ensures p0 == q * s[0] < b * b && p1 == High(b, p0) + q * s[1] < b * b && High(b, p1) < b
    ensures Carried(b, [Low(b, p0), Low(b, p1)], High(b, p1), q * Value(b, s))
  {
    assert s[0] < b && s[1] < b;
    assert s[..0] == [] && s[..1] == [s[0]] && s[..2] == s;
    MulStep(b, [], 0, q, s, 0);
    p0 := q * s[0];
    assert [] + [Low(b, p0)] == [Low(b, p0)];
    MulStep(b, [Low(b, p0)], High(b, p0), q, s, 1);
    p1 := High(b, p0) + q * s[1];
    assert [Low(b, p0)] + [Low(b, p1)] == [Low(b, p0), Low(b, p1)];
  }

  // A carry that is a digit becomes the next digit.
  lemma PlaceCarry(b: Base, r: seq<nat>, c: nat, v: int)
    requires Carried(b, r, c, v) && c < b
    ensures Low(b, c) == c && AllDigits(b, r + [c]) && Value(b, r + [c]) == v
  {
    ValueSnoc(b, r, c);
    SingleDigit(b, c);
  }

  lemma SingleDigit(b: Base, x: nat)
    requires x < b
    ensures Low(b, x) == x
  {
    DivUnique(x, b, 0, x);
  }

  lemma AtMostTwoCorrections(b: Base, u: seq<nat>, s: seq<nat>, first: nat, q: nat)
    requires |u| == 3 && |s| == 2 && AllDigits(b, u) && AllDigits(b, s)
    requires 0 < s[1] && u[2] <= s[1] && first == InitialGuess(b, u[2], u[1], s[1])
    requires q <= first && (q == first || (q + 1) * Value(b, s) > Value(b, u))
    ensures 2 * s[1] >= b - 1 ==> first <= q + 2
  {
    if 2 * s[1] >= b - 1 && first > q + 2 {
      assert s[0] < b && s[1] < b && u[0] < b && u[1] < b;
      InitialGuessIsDigit(b, u[2], u[1], s[1]);
      ValueOfTwo(b, s);
      ValueOfThree(b, u);
      var k, top2 := first - 2, Value(b, s);
      MulAtLeast(top2, q + 1, k);
      // k * top2 stays within the three dividend digits, against the last failed comparison.
      CorrectionAlgebra(b, first, s[0], s[1], u[0], u[1], u[2]);
      assert false;
    }
  }

  lemma CorrectionAlgebra(b: Base, first: nat, s0: nat, s1: nat, u0: nat, u1: nat, u2: nat)
    requires 2 <= first < b <= 2 * s1 + 1 && s0 < b
    requires first * s1 <= u2 * b + u1
    ensures (first - 2) * (s0 + b * s1) <= u0 + b * (u1 + b * u2)
  {
    var k, y := first - 2, b * s1;
    ScaledGuess(b, first, s1, u1, u2);
    assert k * (s0 + y) == k * s0 + first * y - 2 * y;
    MulAtLeast(k, s0, b);
    MulAtLeast(b, k, 2 * s1);
    assert (2 * s1) * b == 2 * y;
  }

  lemma ScaledGuess(b: nat, first: nat, s1: nat, u1: nat, u2: nat)
    requires first * s1 <= u2 * b + u1
    ensures first * (b * s1) <= b * (u1 + b * u2)
  {
    MulAtLeast(b, first * s1, u2 * b + u1);
    assert b * (u2 * b + u1) == b * (u1 + b * u2);
    assert b * (first * s1) == first * (b * s1);
  }

  // A string and its digits from position n up, with the rest as a remainder below the weight.
  lemma TopOf(b: Base, s: seq<nat>, n: nat)
    requires n <= |s| && AllDigits(b, s)
    ensures Value(b, s) == Value(b, s[..n]) + Pow(b, n) * Value(b, s[n..])
    ensures Value(b, s[..n]) < Pow(b, n)
  {
    ValueSplit(b, s, n);
    ValueBound(b, s[..n]);
  }

  /** What guess_q's comparison says of its answer, for a window and a divisor. */
  ghost predicate GuessFor(b: Base, win: seq<nat>, y: seq<nat>, q: nat) {
    && |y| >= 2 && |win| == |y| + 1 && AllDigits(b, win) && AllDigits(b, y)
    && q < b && 0 < y[|y| - 1] && win[|y|] <= y[|y| - 1]
    && var top3, top2 := Value(b, win[|y| - 2..]), Value(b, y[|y| - 2..]);
       && q * top2 <= top3
       && (q == InitialGuess(b, win[|y|], win[|y| - 1], y[|y| - 1]) || (q + 1) * top2 > top3)
  }

  /** The guess is at least the true digit, whatever the divisor's top digit ... */
  lemma GuessNotTooSmall(b: Base, win: seq<nat>, y: seq<nat>, q: nat)
    requires GuessFor(b, win, y, q) && Value(b, win[1..]) < Value(b, y)
    ensures Value(b, win) < (q + 1) * Value(b, y)
  {
    var n := |y| - 2;
    var top3, top2 := Value(b, win[n..]), Value(b, y[n..]);
    TopOf(b, win, n);
    TopOf(b, y, n);
    if (q + 1) * top2 > top3 {
      NotTooSmall(Pow(b, n), q, top2, top3, Value(b, win[..n]), Value(b, y[..n]), Value(b, win), Value(b, y));
    } else {
      FirstGuessNotTooSmall(b, win, y, q);
    }
  }

  /** ... and at most one more. */
  lemma GuessNotTooLarge(b: Base, win: seq<nat>, y: seq<nat>, q: nat)
    requires GuessFor(b, win, y, q) && q > 0
    ensures (q - 1) * Value(b, y) <= Value(b, win)
  {
    var n := |y| - 2;
    TopOf(b, win, n);
    TopOf(b, y, n);
    ValueOfTwo(b, y[n..]);
    TooLargeByOne(b, Pow(b, n), q, Value(b, y[n..]), Value(b, win[n..]), Value(b, win[..n]), Value(b, y[..n]),
                  y[n], y[n + 1], Value(b, win), Value(b, y));
  }

  lemma NotTooSmall(p: nat, q: nat, top2: nat, top3: nat, lw: nat, ly: nat, vw: nat, vy: nat)
    requires lw < p && (q + 1) * top2 > top3
    requires vw == lw + p * top3 && vy == ly + p * top2
    ensures vw < (q + 1) * vy
  {
    MulAtLeast(p, top3 + 1, (q + 1) * top2);
    assert (q + 1) * (ly + p * top2) == (q + 1) * ly + ((q + 1) * top2) * p;
    assert (top3 + 1) * p == p * top3 + p;
    MulAtLeast(ly, 0, q + 1);
  }

  lemma TooLargeByOne(b: Base, p: nat, q: nat, top2: nat, top3: nat, lw: nat, ly: nat, s0: nat, s1: nat, vw: nat,
      vy: nat)
    requires 0 < q < b && q * top2 <= top3 && ly < p && top2 == s0 + b * s1 && s1 > 0
    requires vw == lw + p * top3 && vy == ly + p * top2
    ensures (q - 1) * vy <= vw
  {
    MulAtLeast(b, 1, s1);
    assert q - 1 <= top2;
    MulAtLeast(q - 1, ly, p);
    MulAtLeast(p, q - 1, top2);
    MulAtLeast(p, q * top2, top3);
    assert (q - 1) * (ly + p * top2) == (q - 1) * ly + (q * top2) * p - p * top2;
  }

  // The first guess is already at least the true digit.
  lemma FirstGuessNotTooSmall(b: Base, win: seq<nat>, y: seq<nat>, q: nat)
    requires |y| >= 2 && |win| == |y| + 1 && AllDigits(b, win) && AllDigits(b, y)
    requires y[|y| - 1] > 0 && Value(b, win[1..]) < Value(b, y) && win[|y|] <= y[|y| - 1]
    requires q == InitialGuess(b, win[|y|], win[|y| - 1], y[|y| - 1])
    ensures Value(b, win) < (q + 1) * Value(b, y)
  {
    hide Value, Pow;
    var n := |y|;
    var r0, r1, y0 := win[n], win[n - 1], y[n - 1];
    InitialGuessIsDigit(b, r0, r1, y0);
    if r0 == y0 {
      // Here q + 1 is the base, and the window is below base times divisor.
      TailBelow(b, win, Value(b, y));
    } else {
      ValueSplit(b, win, n - 1);
      ValueOfTwo(b, win[n - 1..]);
      ValueBound(b, win[..n - 1]);
      TopDigit(b, y);
      MulCommutes(b, r0);
      FirstGuessAlgebra(Pow(b, n - 1), q, r0 * b + r1, y0, Value(b, win[..n - 1]), Value(b, win), Value(b, y));
    }
  }

  lemma TailBelow(b: Base, win: seq<nat>, v: nat)
    requires win != [] && AllDigits(b, win) && Value(b, win[1..]) < v
    ensures Value(b, win) < b * v
  {
    MulLess(b, Value(b, win[1..]), v);
    assert win[0] < b;
  }

  lemma FirstGuessAlgebra(p: nat, q: nat, top: nat, y0: nat, lw: nat, vw: nat, vy: nat)
    requires lw < p && top < (q + 1) * y0 && y0 * p <= vy && vw == lw + p * top
    ensures vw < (q + 1) * vy
  {
    MulAtLeast(p, top + 1, (q + 1) * y0);
    MulAtLeast(q + 1, y0 * p, vy);
    assert (q + 1) * (y0 * p) == ((q + 1) * y0) * p;
    assert (top + 1) * p == p * top + p;
  }

  /** Multiplies the divisor by q and subtracts it from the window of r at offset o. The result
      is 1 exactly if nothing had to be borrowed beyond the window. */
  method MultiplyAndSubtract(b: Base, r: array<nat>, o: nat, y: array<nat>, l: nat, q: nat) returns (h: nat)
    requires o + l < r.Length && l <= y.Length && r != y && q < b
    requires AllDigits(b, r[o..o + l + 1]) && AllDigits(b, y[..l])
    modifies r
    ensures h <= 1
    ensures Carried(b, r[o..o + l + 1], h, Value(b, old(r[o..o + l + 1])) - q * Value(b, y[..l]) + Pow(b, l + 1))
    ensures h == 1 <==> q * Value(b, y[..l]) <= Value(b, old(r[o..o + l + 1]))
    ensures forall k :: 0 <= k < r.Length && !(o <= k <= o + l) ==> r[k] == old(r[k])
  {
    hide Value, Pow;
    ghost var s, t := r[o..o + l + 1], y[..l];
    var p: nat := 0;
    h := 1;
    var i := 0;
    BaseCases(b);
    assert r[o..o] == [] && s[..0] == [] && t[..0] == [];
    assert q * 0 == 0;
    while i < l
      invariant 0 <= i <= l && h <= 1 && p < b
      invariant forall k :: 0 <= k < r.Length && !(o <= k < o + i) ==> r[k] == old(r[k])
      invariant Carried(b, r[o..o + i], h - p, Value(b, s[..i]) - q * Value(b, t[..i]) + Pow(b, i))
    {
      assert r[o + i] == s[i] && y[i] == t[i];
      SubtractStep(b, r[o..o + i], h, p, q, s, t, i);
      ghost var was := r[o..o + i];
      p := Two(b, p + q * y[i]);
      h := Two(b, h + r[o + i] + (b - 1));
      h := Two(b, h - Low(b, p));
      r[o + i] := Low(b, h);
      assert r[o..o + i + 1] == was + [Low(b, h)];
      p := High(b, p);
      h := High(b, h);
      i := i + 1;
    }
    assert t[..l] == t;
    assert r[o + l] == s[l];
    SubtractTop(b, r[o..o + l], h, p, s, q * Value(b, t), l);
    ghost var was := r[o..o + l];
    h := Two(b, h + r[o + l] + (b - 1));
    h := Two(b, h - p);
    r[o + l] := Low(b, h);
    assert r[o..o + l + 1] == was + [Low(b, h)];
    h := High(b, h);
  }

  // The borrow out of the window tells the sign of the difference.
  lemma SignOfDifference(b: Base, w: seq<nat>, h: nat, diff: int)
    requires h <= 1 && Carried(b, w, h, diff + Pow(b, |w|))
    ensures h == 1 <==> diff >= 0
  {
    ValueBound(b, w);
    assert h == 0 || h == 1;
  }

  lemma SubtractStep(b: Base, w: seq<nat>, h: nat, p: nat, q: nat, s: seq<nat>, t: seq<nat>, i: nat)
    requires i < |s| && i < |t| && |w| == i && h <= 1 && p < b && q < b && s[i] < b && t[i] < b
    requires Carried(b, w, h - p, Value(b, s[..i]) - q * Value(b, t[..i]) + Pow(b, i))
    ensures 0 <= p + q * t[i] < b * b
    ensures var p1: nat := p + q * t[i];
      var h1 := h + s[i] + (b - 1) - Low(b, p1);
      && High(b, p1) < b && h + s[i] + (b - 1) < b * b && 0 <= h1 < b * b && High(b, h1) <= 1
      && Carried(b, w + [Low(b, h1)], High(b, h1) - High(b, p1),
                 Value(b, s[..i + 1]) - q * Value(b, t[..i + 1]) + Pow(b, i + 1))
  {
    ProductFits(b, q, t[i], p);
    var p1: nat := p + q * t[i];
    CarryFits(b, p1);
    SumFits(b, h + s[i] + (b - 1));
    var h1: nat := h + s[i] + (b - 1) - Low(b, p1);
    SumCarry(b, h1);
    SplitDifference(b, p, q * t[i], h, s[i] + (b - 1), p1, h1);
    CarryInto(b, w, h - p, Value(b, s[..i]) - q * Value(b, t[..i]) + Pow(b, i),
              s[i] - q * t[i] + (b - 1), High(b, h1) - High(b, p1), Low(b, h1));
    SubtractValue(b, s, t, q, i);
  }

  // The two carries of one round, taken as one signed carry.
  lemma SplitDifference(b: Base, p: nat, x: int, h: nat, e: int, p1: nat, h1: nat)
    requires p1 == p + x && h1 == h + e - Low(b, p1)
    ensures h - p + e - x == (High(b, h1) - High(b, p1)) * b + Low(b, h1)
  {
    LowHigh(b, p1);
    LowHigh(b, h1);
    assert (High(b, h1) - High(b, p1)) * b == High(b, h1) * b - High(b, p1) * b;
  }

  lemma SubtractValue(b: Base, s: seq<nat>, t: seq<nat>, q: nat, i: nat)
    requires i < |s| && i < |t|
    ensures Value(b, s[..i]) - q * Value(b, t[..i]) + Pow(b, i) + (s[i] - q * t[i] + (b - 1)) * Pow(b, i)
            == Value(b, s[..i + 1]) - q * Value(b, t[..i + 1]) + Pow(b, i + 1)
  {
    PrefixStep(b, s, i);
    PrefixStep(b, t, i);
    SubtractAlgebra(b, Pow(b, i), s[i], q, t[i], Value(b, t[..i]));
  }

  lemma SubtractAlgebra(b: int, p: int, s: int, q: int, t: int, v: int)
    ensures (s - q * t + (b - 1)) * p == s * p - q * (v + t * p) + q * v + b * p - p
  {
    assert q * (v + t * p) == q * v + (q * t) * p;
    assert (s - q * t + (b - 1)) * p == s * p - (q * t) * p + (b * p - p);
  }

  lemma SubtractTop(b: Base, w: seq<nat>, h: nat, p: nat, s: seq<nat>, qv: int, l: nat)
    requires |s| == l + 1 && |w| == l && h <= 1 && p < b && s[l] < b
    requires Carried(b, w, h - p, Value(b, s[..l]) - qv + Pow(b, l))
    ensures h + s[l] + (b - 1) < b * b
    ensures var h1 := h + s[l] + (b - 1) - p;
      && 0 <= h1 < b * b && High(b, h1) <= 1
      && Carried(b, w + [Low(b, h1)], High(b, h1), Value(b, s) - qv + Pow(b, l + 1))
      && (High(b, h1) == 1 <==> qv <= Value(b, s))
  {
    SumFits(b, h + s[l] + (b - 1));
    var h1: nat := h + s[l] + (b - 1) - p;
    SumCarry(b, h1);
    LowHigh(b, h1);
    PrefixStep(b, s, l);
    CarryInto(b, w, h - p, Value(b, s[..l]) - qv + Pow(b, l), s[l] + (b - 1), High(b, h1), Low(b, h1));
    BorrowAlgebra(b, Pow(b, l), s[l], 0);
    assert s[..l + 1] == s;
    SignOfDifference(b, w + [Low(b, h1)], High(b, h1), Value(b, s) - qv);
  }

  /** Adds the divisor back to the window of r at offset o, dropping the carry. */
  method AddBack(b: Base, r: array<nat>, o: nat, y: array<nat>, l: nat)
    requires o + l < r.Length && l <= y.Length && r != y
    requires AllDigits(b, r[o..o + l]) && AllDigits(b, y[..l])
    modifies r
    ensures AllDigits(b, r[o..o + l])
    ensures var sum := Value(b, old(r[o..o + l])) + Value(b, y[..l]);
      Value(b, r[o..o + l]) == sum || Value(b, r[o..o + l]) == sum - Pow(b, l)
    ensures r[o + l] == 0
    ensures forall k :: 0 <= k < r.Length && !(o <= k <= o + l) ==> r[k] == old(r[k])
  {
    hide Value, Pow;
    ghost var s, t := r[o..o + l], y[..l];
    var h: nat := 0;
    var i := 0;
    BaseCases(b);
    assert r[o..o] == [] && s[..0] == [] && t[..0] == [];
    while i < l
      invariant 0 <= i <= l && h <= 1
      invariant forall k :: 0 <= k < r.Length && !(o <= k < o + i) ==> r[k] == old(r[k])
      invariant Carried(b, r[o..o + i], h, Value(b, s[..i]) + Value(b, t[..i]))
    {
      assert r[o + i] == s[i] && y[i] == t[i];
      AddStep(b, r[o..o + i], h, s, t, i);
      ghost var was := r[o..o + i];
      h := Two(b, h + r[o + i] + y[i]);
      r[o + i] := Low(b, h);
      assert r[o..o + i + 1] == was + [Low(b, h)];
      h := High(b, h);
      i := i + 1;
    }
    assert s[..l] == s && t[..l] == t;
    assert h == 0 || h == 1;
    assert 1 * Pow(b, l) == Pow(b, l);
    ghost var done := r[o..o + l];
    r[o + l] := 0;
    assert r[o..o + l] == done;
  }

  /** One step of the division of a window by d: q is its quotient digit, and what is left,
      below d, fills the low digits under a zero top digit. */
  ghost predicate QuotientStep(b: Base, win: seq<nat>, d: seq<nat>, q: nat, now: seq<nat>) {
    && |win| == |now| == |d| + 1 && AllDigits(b, now) && now[|d|] == 0 && q < b
    && Value(b, win) == q * Value(b, d) + Value(b, now[..|d|])
    && Value(b, now[..|d|]) < Value(b, d)
  }

  /** One quotient digit: guess it, subtract its multiple of the divisor from the window of r
      that starts at digit i, and correct the guess by one if that went below zero. */
  method QuotientDigit(b: Base, r: array<nat>, i: nat, y: array<nat>, yl: nat) returns (qh: nat)
    requires 2 <= yl <= y.Length && i + yl < r.Length && r != y
    requires AllDigits(b, r[i..i + yl + 1]) && AllDigits(b, y[..yl]) && y[yl - 1] > 0
    requires Value(b, r[i + 1..i + yl + 1]) < Value(b, y[..yl])
    modifies r
    ensures QuotientStep(b, old(r[i..i + yl + 1]), y[..yl], qh, r[i..i + yl + 1])
    ensures forall k :: 0 <= k < r.Length && !(i <= k <= i + yl) ==> r[k] == old(r[k])
  {
    ghost var win, d := r[i..i + yl + 1], y[..yl];
    qh := GuessWindow(b, r, i, y, yl);
    GuessNotTooSmall(b, win, d, qh);
    var h := MultiplyAndSubtract(b, r, i, y, yl, qh);
    ghost var w := r[i..i + yl + 1];
    if h == 0 {
      GuessNotTooLarge(b, win, d, qh);
      qh := qh - 1;
      assert w[..yl] == r[i..i + yl];
      AddBack(b, r, i, y, yl);
      ghost var now := r[i..i + yl + 1];
      assert now[..yl] == r[i..i + yl];
      AddBackStep(b, win, d, qh, w, now);
    } else {
      NoBorrowStep(b, win, d, qh, w);
    }
  }

  method GuessWindow(b: Base, r: array<nat>, i: nat, y: array<nat>, yl: nat) returns (qh: nat)
    requires 2 <= yl <= y.Length && i + yl < r.Length
    requires AllDigits(b, r[i..i + yl + 1]) && AllDigits(b, y[..yl]) && y[yl - 1] > 0
    requires Value(b, r[i + 1..i + yl + 1]) < Value(b, y[..yl])
    ensures GuessFor(b, r[i..i + yl + 1], y[..yl], qh)
    ensures Value(b, r[i..i + yl + 1][1..]) < Value(b, y[..yl])
  {
    ghost var win, d := r[i..i + yl + 1], y[..yl];
    assert win[1..] == r[i + 1..i + yl + 1];
    assert win[yl - 2..] == r[i + yl - 2..i + yl + 1] && d[yl - 2..] == y[yl - 2..yl];
    assert win[yl] == r[i + yl] && win[yl - 1] == r[i + yl - 1] && d[yl - 1] == y[yl - 1];
    TopDigitsOrdered(b, win[1..], d);
    qh := GuessQ(b, r, i + yl, y, yl - 1);
  }

  lemma NoBorrowStep(b: Base, win: seq<nat>, d: seq<nat>, q: nat, w: seq<nat>)
    requires |win| == |w| == |d| + 1 && q < b && AllDigits(b, d)
    requires q * Value(b, d) <= Value(b, win) < (q + 1) * Value(b, d)
    requires Carried(b, w, 1, Value(b, win) - q * Value(b, d) + Pow(b, |d| + 1))
    ensures QuotientStep(b, win, d, q, w)
  {
    var rem := RemainderAfter(Value(b, win), q, Value(b, d));
    ValueBound(b, d);
    SmallValueHasZeroTop(b, w, rem);
  }

  lemma AddBackStep(b: Base, win: seq<nat>, d: seq<nat>, q: nat, w: seq<nat>, now: seq<nat>)
    requires |win| == |w| == |now| == |d| + 1 && q + 1 < b && AllDigits(b, d)
    requires q * Value(b, d) <= Value(b, win) < (q + 1) * Value(b, d)
    requires Carried(b, w, 0, Value(b, win) - (q + 1) * Value(b, d) + Pow(b, |d| + 1))
    requires AllDigits(b, now[..|d|]) && now[|d|] == 0
    requires var sum := Value(b, w[..|d|]) + Value(b, d);
      Value(b, now[..|d|]) == sum || Value(b, now[..|d|]) == sum - Pow(b, |d|)
    ensures QuotientStep(b, win, d, q, now)
  {
    hide Value, Pow;
    var rem := RemainderAfter(Value(b, win), q, Value(b, d));
    assert (q + 1) * Value(b, d) == q * Value(b, d) + Value(b, d);
    AddedBack(b, w, d, rem, Value(b, now[..|d|]), now[..|d|]);
  }

  lemma TopDigitsOrdered(b: Base, s: seq<nat>, t: seq<nat>)
    requires |s| == |t| && s != [] && AllDigits(b, s) && AllDigits(b, t)
    requires Value(b, s) < Value(b, t)
    ensures s[|s| - 1] <= t[|t| - 1]
  {
    TopDigit(b, s);
    TopDigit(b, t);
    if s[|s| - 1] > t[|t| - 1] {
      MulAtLeast(Pow(b, |s| - 1), t[|t| - 1] + 1, s[|s| - 1]);
    }
  }

  // The remainder of x by d once the quotient is known to be q.
  lemma RemainderAfter(x: nat, q: nat, d: nat) returns (rem: nat)
    requires q * d <= x < (q + 1) * d
    ensures x == q * d + rem && rem < d
  {
    rem := x - q * d;
    assert (q + 1) * d == q * d + d;
  }

  lemma SmallValueHasZeroTop(b: Base, w: seq<nat>, rem: nat)
    requires w != [] && AllDigits(b, w) && Value(b, w) == rem < Pow(b, |w| - 1)
    ensures w[|w| - 1] == 0 && Value(b, w[..|w| - 1]) == rem
  {
    var n := |w| - 1;
    PrefixStep(b, w, n);
    assert w[..n + 1] == w;
    if w[n] > 0 {
      MulAtLeast(Pow(b, n), 1, w[n]);
    }
  }

  // Adding the divisor to a window that wrapped by exactly one divisor restores the remainder.
  lemma AddedBack(b: Base, w: seq<nat>, d: seq<nat>, rem: nat, sum: int, now: seq<nat>)
    requires |w| == |d| + 1 && AllDigits(b, w) && AllDigits(b, d) && rem < Value(b, d)
    requires Value(b, w) == rem - Value(b, d) + Pow(b, |d| + 1)
    requires |now| == |d| && AllDigits(b, now) && Value(b, now) == sum
    requires sum == Value(b, w[..|d|]) + Value(b, d) || sum == Value(b, w[..|d|]) + Value(b, d) - Pow(b, |d|)
    ensures sum == rem
  {
    var l := |d|;
    PrefixStep(b, w, l);
    assert w[..l + 1] == w;
    ValueBound(b, d);
    ValueBound(b, now);
    AddedBackAlgebra(b, Pow(b, l), Value(b, w), Value(b, w[..l]), w[l], Value(b, d), rem, sum);
  }

  lemma AddedBackAlgebra(b: int, p: nat, vw: int, low: int, top: int, vd: int, rem: nat, sum: nat)
    requires vw == low + top * p && vw == rem - vd + b * p
    requires sum < p && rem < p && (sum == low + vd || sum == low + vd - p)
    ensures sum == rem
  {
    assert b * p - top * p == (b - top) * p;
    assert (b - top - 1) * p == (b - top) * p - p;
    SameResidue(p, if sum == low + vd then b - top else b - top - 1, rem, sum);
  }

  lemma SameResidue(p: nat, k: int, x: nat, y: nat)
    requires x < p && y < p && y == x + k * p
    ensures x == y
  {
    if k >= 1 {
      MulAtLeast(p, 1, k);
    } else if k <= -1 {
      MulAtLeast(p, k, -1);
    }
  }

  /** How far the division of `all` by d has come: the quotient digits qs from position i up
      are found, and r holds what is left. */
  ghost predicate DivisionState(b: Base, all: seq<nat>, d: seq<nat>, qs: seq<nat>, r: seq<nat>, i: nat) {
    && |r| == |all| == i + |qs| + |d| && AllDigits(b, r) && AllDigits(b, qs)
    && Value(b, r[i..i + |d|]) < Value(b, d)
    && (forall k :: i + |d| <= k < |r| ==> r[k] == 0)
    && Value(b, all) == (Value(b, qs) * Pow(b, i)) * Value(b, d) + Value(b, r)
  }

  /** Divides r, of yl + ql digits, by y: the quotient goes to q unless that is null, the
      remainder stays in the low yl digits of r. */
  method DigitDiv(b: Base, r: array<nat>, y: array<nat>, yl: nat, q: array?<nat>, ql: nat)
    requires 2 <= yl <= y.Length && yl + ql <= r.Length && r != y
    requires q != null ==> ql <= q.Length && q != r && q != y
    requires AllDigits(b, r[..yl + ql]) && AllDigits(b, y[..yl]) && y[yl - 1] > 0
    requires Value(b, r[ql..ql + yl]) < Value(b, y[..yl])
    modifies r, if q == null then {} else {q}
    ensures Value(b, y[..yl]) > 0
    ensures DivisionResult(b, old(r[..yl + ql]), y[..yl], r[..yl + ql])
    ensures forall k :: yl + ql <= k < r.Length ==> r[k] == old(r[k])
    ensures q != null ==> AllDigits(b, q[..ql]) && q[ql..] == old(q[ql..])
    ensures q != null ==> Value(b, q[..ql]) == Quot(Value(b, old(r[..yl + ql])), Value(b, y[..yl]))
  {
    ghost var all, d := r[..yl + ql], y[..yl];
    ghost var qs: seq<nat> := [];
    var i := ql;
    assert all[ql..ql + yl] == r[ql..ql + yl];
    DivisionStart(b, all, d, ql);
    while i > 0
      invariant 0 <= i <= ql
      invariant y[..yl] == d
      invariant DivisionState(b, all, d, qs, r[..yl + ql], i)
      invariant forall k :: yl + ql <= k < r.Length ==> r[k] == old(r[k])
      invariant q != null ==> q[i..ql] == qs && q[ql..] == old(q[ql..])
    {
      i := i - 1;
      var qh := DivideAt(b, r, y, yl, i, all, d, qs);
      ghost var now := r[..yl + ql];
      if q != null {
        q[i] := qh;
        assert q[i..ql] == [qh] + q[i + 1..ql];
      }
      qs := [qh] + qs;
      assert r[..yl + ql] == now;
    }
    DivisionDone(b, all, d, qs, r[..yl + ql]);
    assert q != null ==> q[..ql] == q[0..ql] == qs;
  }

  /** The body of the division loop: the digit at position i, in place. */
  method DivideAt(b: Base, r: array<nat>, y: array<nat>, yl: nat, i: nat, ghost all: seq<nat>, ghost d: seq<nat>,
      ghost qs: seq<nat>)
    returns (qh: nat)
    requires 2 <= yl <= y.Length && r != y && |all| <= r.Length && y[..yl] == d
    requires AllDigits(b, d) && d[yl - 1] > 0
    requires DivisionState(b, all, d, qs, r[..|all|], i + 1)
    modifies r
    ensures DivisionState(b, all, d, [qh] + qs, r[..|all|], i)
    ensures forall k :: |all| <= k < r.Length ==> r[k] == old(r[k])
  {
    ghost var was := r[..|all|];
    assert r[i + 1..i + yl + 1] == was[i + 1..i + 1 + yl];
    assert r[i..i + yl + 1] == was[i..i + yl + 1];
    qh := QuotientDigit(b, r, i, y, yl);
    ghost var now := r[..|all|];
    assert now[i..i + yl + 1] == r[i..i + yl + 1];
    DivideRound(b, all, d, qs, was, now, i, qh);
  }

  lemma DivisionStart(b: Base, all: seq<nat>, d: seq<nat>, ql: nat)
    requires |all| == |d| + ql && AllDigits(b, all) && Value(b, all[ql..ql + |d|]) < Value(b, d)
    ensures DivisionState(b, all, d, [], all, ql)
  {
    assert (0 * Pow(b, ql)) * Value(b, d) == 0;
  }

  /** The remainder of s by d in the low digits, zeros above. */
  ghost predicate DivisionResult(b: Base, s: seq<nat>, d: seq<nat>, r: seq<nat>)
    requires Value(b, d) > 0
  {
    && |r| == |s| >= |d| && AllDigits(b, r)
    && Value(b, r[..|d|]) == Rem(Value(b, s), Value(b, d))
    && forall k :: |d| <= k < |r| ==> r[k] == 0
  }

  lemma DivideRound(b: Base, all: seq<nat>, d: seq<nat>, qs: seq<nat>, was: seq<nat>, now: seq<nat>, i: nat, qh: nat)
    requires DivisionState(b, all, d, qs, was, i + 1)
    requires |was| == |now|
    requires forall k :: 0 <= k < |was| && !(i <= k <= i + |d|) ==> was[k] == now[k]
    requires QuotientStep(b, was[i..i + |d| + 1], d, qh, now[i..i + |d| + 1])
    ensures DivisionState(b, all, d, [qh] + qs, now, i)
  {
    var n := |d|;
    var win, cur := was[i..i + n + 1], now[i..i + n + 1];
    assert was[..i] == now[..i] && was[i + n + 1..] == now[i + n + 1..];
    ReplaceWindow(b, was, now, i, i + n + 1);
    LeadingZeros(b, cur, n);
    assert cur[..n] == now[i..i + n] && now[i + n] == cur[n];
    assert ([qh] + qs)[1..] == qs;
    DivideRoundAlgebra(b, Pow(b, i), Value(b, qs), qh, Value(b, d), Value(b, all), Value(b, was), Value(b, now),
                       Value(b, win), Value(b, cur[..n]));
    DigitsOfParts(b, was, now, i, i + n + 1);
  }

  lemma DigitsOfParts(b: Base, s: seq<nat>, t: seq<nat>, lo: nat, hi: nat)
    requires |s| == |t| && lo <= hi <= |s| && AllDigits(b, s) && AllDigits(b, t[lo..hi])
    requires forall k :: 0 <= k < |s| && !(lo <= k < hi) ==> s[k] == t[k]
    ensures AllDigits(b, t)
  {
    forall k | 0 <= k < |t| ensures t[k] < b {
      if lo <= k < hi {
        assert t[k] == t[lo..hi][k - lo];
      } else {
        assert t[k] == s[k];
      }
    }
  }

  lemma DivideRoundAlgebra(b: int, p: int, v: int, q: int, d: int, all: int, was: int, now: int, y: int, x: int)
    requires all == (v * (b * p)) * d + was && was - now == p * (y - x) && y == q * d + x
    ensures all == ((q + b * v) * p) * d + now
  {
    assert (q + b * v) * p == q * p + v * (b * p);
    assert (q * p + v * (b * p)) * d == (q * p) * d + (v * (b * p)) * d;
    assert p * (q * d) == (q * p) * d;
  }

  // Two strings that differ only in a window differ in value by the window's difference.
  lemma ReplaceWindow(b: Base, s: seq<nat>, t: seq<nat>, lo: nat, hi: nat)
    requires |s| == |t| && lo <= hi <= |s|
    requires s[..lo] == t[..lo] && s[hi..] == t[hi..]
    ensures Value(b, s) - Value(b, t) == Pow(b, lo) * (Value(b, s[lo..hi]) - Value(b, t[lo..hi]))
  {
    hide Value, Pow;
    ReplaceHead(b, s, t, hi);
    SlicePrefix(s, lo, hi);
    SlicePrefix(t, lo, hi);
    ReplaceTail(b, s[..hi], t[..hi], lo);
  }

  lemma SlicePrefix(s: seq<nat>, lo: nat, hi: nat)
    requires lo <= hi <= |s|
    ensures s[..hi][..lo] == s[..lo] && s[..hi][lo..] == s[lo..hi]
  {}

  lemma ReplaceHead(b: Base, s: seq<nat>, t: seq<nat>, hi: nat)
    requires |s| == |t| && hi <= |s| && s[hi..] == t[hi..]
    ensures Value(b, s) - Value(b, t) == Value(b, s[..hi]) - Value(b, t[..hi])
  {
    ValueSplit(b, s, hi);
    ValueSplit(b, t, hi);
  }

  lemma ReplaceTail(b: Base, s: seq<nat>, t: seq<nat>, lo: nat)
    requires |s| == |t| && lo <= |s| && s[..lo] == t[..lo]
    ensures Value(b, s) - Value(b, t) == Pow(b, lo) * (Value(b, s[lo..]) - Value(b, t[lo..]))
  {
    hide Value, Pow;
    ValueSplit(b, s, lo);
    ValueSplit(b, t, lo);
    SubDistributes(Pow(b, lo), Value(b, s[lo..]), Value(b, t[lo..]));
  }

  lemma SubDistributes(p: int, x: int, y: int)
    ensures p * x - p * y == p * (x - y)
  {}

  lemma DivisionDone(b: Base, all: seq<nat>, d: seq<nat>, qs: seq<nat>, r: seq<nat>)
    requires DivisionState(b, all, d, qs, r, 0)
    ensures Value(b, qs) == Quot(Value(b, all), Value(b, d))
    ensures DivisionResult(b, all, d, r)
  {
    LeadingZeros(b, r, |d|);
    assert r[0..|d|] == r[..|d|];
    UnitWeight(Value(b, qs), Value(b, d), Pow(b, 0));
    QuotUnique(Value(b, all), Value(b, d), Value(b, qs), Value(b, r[..|d|]));
  }

  lemma UnitWeight(v: int, d: int, p: int)
    requires p == 1
    ensures (v * p) * d == v * d
  {}
}
