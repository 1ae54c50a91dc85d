/** What padding guarantees: it only inserts, it places every member on its alignment, it rounds
    the size, it leaves the alignment alone, and doing it twice is doing it once exactly where
    no ExtInt member is involved. */
module PaddingLaws {
  import opened Options
  import opened Powers
  import opened Padding

  // ---- Padding only inserts ----------------------------------------------------------------

  /** A type without the components flagged as padding, at every level that padding reaches. */
  function Strip(t: Type): Type {
    match t
    case Struct(comps, attr) => Struct(StripAll(comps), attr)
    case Union(comps, attr) => Union(StripAll(comps), attr)
    case _ => t
  }

  function StripAll(cs: seq<Component>): seq<Component> {
    if cs == [] then []
    else
      assert cs[0].ty < cs[0];
      (if cs[0].padding then [] else [cs[0].(ty := Strip(cs[0].ty))]) + StripAll(cs[1..])
  }

  lemma {:induction false} StripConcat(xs: seq<Component>, ys: seq<Component>)
    ensures StripAll(xs + ys) == StripAll(xs) + StripAll(ys)
  {
    if xs == [] {
      assert xs + ys == ys;
    } else {
      assert (xs + ys)[1..] == xs[1..] + ys && (xs + ys)[0] == xs[0];
      StripConcat(xs[1..], ys);
    }
  }

  lemma StripPads(xs: seq<Component>)
    requires forall k :: 0 <= k < |xs| ==> xs[k].padding
    ensures StripAll(xs) == []
  {}

  // A component between pads.
  lemma StripHead(pre: seq<Component>, c: Component, post: seq<Component>, rest: seq<Component>)
    requires forall k :: 0 <= k < |pre| ==> pre[k].padding
    requires forall k :: 0 <= k < |post| ==> post[k].padding
    ensures StripAll(pre + [c] + post + rest) == StripAll([c]) + StripAll(rest)
  {
    hide StripAll;
    StripPads(pre);
    StripPads(post);
    StripConcat(pre + [c] + post, rest);
    StripConcat(pre + [c], post);
    StripConcat(pre, [c]);
  }

  lemma StripCons(c: Component, rest: seq<Component>)
    ensures StripAll([c] + rest) == StripAll([c]) + StripAll(rest)
  {
    StripConcat([c], rest);
  }

  lemma {:induction false} BitPassStrip(cs: seq<Component>, bits: nat, index: nat)
    ensures StripAll(BitPass(cs, bits, index)) == StripAll(cs)
  {
    hide BitHead, RunAfter, StripAll;
    if cs == [] {
      StripPads(BitPadBefore(bits, index));
      StripPads([]);
    } else {
      var head := BitHead(cs[0], bits, index);
      var rest := BitPass(cs[1..], RunAfter(cs[0], bits), index + |head|);
      BitPassStrip(cs[1..], RunAfter(cs[0], bits), index + |head|);
      assert cs == [cs[0]] + cs[1..];
      StripCons(cs[0], cs[1..]);
      BitHeadStrip(cs[0], bits, index, rest);
    }
  }

  lemma BitHeadStrip(c: Component, bits: nat, index: nat, rest: seq<Component>)
    ensures StripAll(BitHead(c, bits, index) + rest) == StripAll([c]) + StripAll(rest)
  {
    hide StripAll;
    if IsBits(c.ty) {
      StripCons(c, rest);
    } else {
      var pre := BitPadBefore(bits, index);
      StripHead(pre, c, ExtPadAfter(c, index + |pre| + 1), rest);
    }
  }

  lemma {:induction false} PlacePassStrip(cs: seq<Component>, p: Position, index: nat)
    requires Aligned(cs)
    ensures StripAll(PlacePass(cs, p, index)) == StripAll(cs)
  {
    if cs != [] {
      AlignedTail(cs);
      var head := PlaceHead(p, cs[0], index);
      var q := PlaceAfter(p, cs[0], cs[1..]);
      PlacePassStrip(cs[1..], q, index + |head|);
      assert cs == [cs[0]] + cs[1..];
      StripCons(cs[0], cs[1..]);
      PlaceHeadStrip(p, cs[0], index, PlacePass(cs[1..], q, index + |head|));
    }
  }

  lemma PlaceHeadStrip(p: Position, c: Component, index: nat, rest: seq<Component>)
    requires PlaceAlignment(c) > 0
    ensures StripAll(PlaceHead(p, c, index) + rest) == StripAll([c]) + StripAll(rest)
  {
    var gap := Gap(p, c);
    var pre := if gap != 0 then [PadOf(gap, index)] else [];
    assert PlaceHead(p, c, index) + rest == pre + [c] + [] + rest;
    StripHead(pre, c, [], rest);
  }

  lemma PadStructStrip(cs: seq<Component>, attr: Attr)
    requires Aligned(BitPass(cs, 0, 0))
    ensures StripAll(PadStruct(cs, attr)) == StripAll(cs)
  {
    var first := BitPass(cs, 0, 0);
    BitPassStrip(cs, 0, 0);
    PlacePassStrip(first, Position(0, 0), 0);
    var second := PlacePass(first, Position(0, 0), 0);
    var end := EndPad(PlaceEnd(first, Position(0, 0)).offset, Max(LargestPlace(first), Given(attr)), |second|);
    StripPads(end);
    StripConcat(second, end);
  }

  lemma PadUnionStrip(cs: seq<Component>, attr: Attr)
    requires UnionUnit(cs, attr) > 0
    ensures StripAll(PadUnion(cs, attr)) == StripAll(cs)
  {
    var r := PadUnion(cs, attr);
    if r != cs {
      var pad := r[|cs|..];
      assert r == cs + pad;
      StripPads(pad);
      StripConcat(cs, pad);
    }
  }

  /** Taking the padding out of a padded type gives the original, members in their order, down
      through all nested structs. */
  lemma {:induction false} PaddingOnlyInserts(t: Type)
    requires WellFormed(t)
    ensures Strip(PadType(t)) == Strip(t)
    decreases t, 0
  {
    match t
    case Struct(comps, attr) =>
      PadTypesStrip(comps);
      PadStructWellFormed(PadTypes(comps), attr);
      PadStructStrip(PadTypes(comps), attr);
    case Union(comps, attr) =>
      PadUnionWellFormed(comps, attr);
      PadUnionStrip(comps, attr);
    case _ =>
  }

  lemma {:induction false} PadTypesStrip(cs: seq<Component>)
    requires WellFormedAll(cs)
    ensures StripAll(PadTypes(cs)) == StripAll(cs)
    decreases cs, 1
  {
    if cs != [] {
      assert cs[0].ty < cs[0];
      PaddingOnlyInserts(cs[0].ty);
      PadTypesStrip(cs[1..]);
      var rest := PadTypes(cs[1..]);
      assert PadTypes(cs)[1..] == rest;
    }
  }

  // ---- Doing it twice ----------------------------------------------------------------------

  predicate NoExt(cs: seq<Component>) {
    forall k :: 0 <= k < |cs| ==> !cs[k].ty.ExtInt?
  }

  lemma {:induction false} BitPassNoExt(cs: seq<Component>, bits: nat, index: nat)
    requires NoExt(cs)
    ensures NoExt(BitPass(cs, bits, index))
  {
    hide BitHead, RunAfter;
    if cs == [] {
      BitPadNoExtInt(bits, index);
    } else {
      var head := BitHead(cs[0], bits, index);
      BitHeadNoExt(cs[0], bits, index);
      BitPassNoExt(cs[1..], RunAfter(cs[0], bits), index + |head|);
    }
  }

  lemma BitPadNoExtInt(bits: nat, index: nat)
    ensures NoExt(BitPadBefore(bits, index))
  {}

  lemma BitHeadNoExt(c: Component, bits: nat, index: nat)
    requires !c.ty.ExtInt?
    ensures NoExt(BitHead(c, bits, index))
  {}

  /** A list whose bit-field runs end on byte boundaries is left alone by the first pass. */
  lemma {:induction false} BitPassFixed(cs: seq<Component>, bits: nat, index: nat)
    requires NoExt(cs) && RunsEnd(cs, bits % BYTE)
    ensures BitPass(cs, bits, index) == cs
  {
    if cs != [] {
      assert cs == [cs[0]] + cs[1..];
      if IsBits(cs[0].ty) {
        ModuloByte(bits, cs[0].ty.width);
        BitPassFixed(cs[1..], bits + cs[0].ty.width, index + 1);
      } else {
        assert BitHead(cs[0], bits, index) == [cs[0]];
        BitPassFixed(cs[1..], 0, index + 1);
      }
    }
  }

  /** Every component that needs a place has it. */
  ghost predicate Placed(cs: seq<Component>, p: Position)
    requires Aligned(cs)
  {
    cs == [] || (
      AlignedTail(cs);
      Gap(p, cs[0]) == 0 && Placed(cs[1..], After(p, cs[0], cs[1..])))
  }

  lemma {:induction false} PlacedFixed(cs: seq<Component>, p: Position, index: nat)
    requires Aligned(cs) && Placed(cs, p)
    ensures PlacePass(cs, p, index) == cs
  {
    if cs != [] {
      AlignedTail(cs);
      assert cs == [cs[0]] + cs[1..];
      PlacedFixed(cs[1..], After(p, cs[0], cs[1..]), index + 1);
    }
  }

  /** What a list of placed components looks like from its start: the second pass keeps these
      facts, and the place where it ends, of the list it worked on. */
  ghost predicate LaidOut(cs: seq<Component>, p: Position, end: Position, largest: nat) {
    && Aligned(cs) && NoExt(cs) && Placed(cs, p) && RunsEnd(cs, p.bits)
    && PlaceEnd(cs, p) == end && LargestPlace(cs) == largest
  }

  lemma {:induction false} PlacePassLaysOut(cs: seq<Component>, p: Position, index: nat)
    requires Aligned(cs) && NoExt(cs) && RunsEnd(cs, p.bits) && p.bits < BYTE
    ensures LaidOut(PlacePass(cs, p, index), p, PlaceEnd(cs, p), LargestPlace(cs))
  {
    hide Alignment, SizeBits;
    if cs != [] {
      AlignedTail(cs);
      var head, q := PlaceHead(p, cs[0], index), PlaceAfter(p, cs[0], cs[1..]);
      assert NoExt(cs[1..]);
      PlacePassLaysOut(cs[1..], q, index + |head|);
      PlaceHeadLaysOut(p, cs[0], index, cs[1..], PlacePass(cs[1..], q, index + |head|));
    }
  }

  lemma PlaceHeadLaysOut(p: Position, c: Component, index: nat, tail: seq<Component>, rest: seq<Component>)
    requires PlaceAlignment(c) > 0 && !c.ty.ExtInt? && p.bits < BYTE && Aligned(tail)
    requires RunsEnd([c] + tail, p.bits)
    requires LaidOut(rest, PlaceAfter(p, c, tail), PlaceEnd(tail, PlaceAfter(p, c, tail)), LargestPlace(tail))
    ensures Aligned([c] + tail)
    ensures LaidOut(PlaceHead(p, c, index) + rest, p, PlaceEnd([c] + tail, p), LargestPlace([c] + tail))
  {
    hide Alignment, SizeBits, LaidOut;
    assert ([c] + tail)[1..] == tail;
    assert Aligned([c] + tail);
    var gap, end, largest := Gap(p, c), PlaceEnd(tail, PlaceAfter(p, c, tail)), LargestPlace(tail);
    var p1 := p.(offset := p.offset + gap);
    GapClosed(p, c);
    RunBeforeWhole(c, tail, p.bits);
    assert PlaceAfter(p, c, tail) == After(p1, c, []);
    ConsLaidOut(p1, c, rest, end, largest);
    if gap != 0 {
      PadInFront(p, gap, index, [c] + rest, end, Max(PlaceAlignment(c), largest));
      assert PlaceHead(p, c, index) + rest == [PadOf(gap, index)] + ([c] + rest);
    }
  }

  lemma RunBeforeWhole(c: Component, tail: seq<Component>, bits: nat)
    requires RunsEnd([c] + tail, bits) && bits < BYTE
    ensures !IsBits(c.ty) ==> bits == 0
  {}

  lemma GapClosed(p: Position, c: Component)
    requires PlaceAlignment(c) > 0
    ensures Gap(p.(offset := p.offset + Gap(p, c)), c) == 0
  {
    if Gap(p, c) != 0 {
      GapFills(p.offset, PlaceAlignment(c));
    }
  }

  // A pad brings the position to where the list behind it starts.
  lemma PadInFront(p: Position, gap: nat, index: nat, rest: seq<Component>, end: Position, largest: nat)
    requires gap > 0 && p.bits == 0 && largest >= 1
    requires LaidOut(rest, p.(offset := p.offset + gap), end, largest)
    ensures LaidOut([PadOf(gap, index)] + rest, p, end, largest)
  {
    ConsLaidOut(p, PadOf(gap, index), rest, end, largest);
  }

  // The missing bytes complete a multiple of the alignment.
  lemma GapFills(offset: nat, a: nat)
    requires a > 0 && offset % a != 0
    ensures (offset + (a - offset % a)) % a == 0
  {
    DivMod(offset, a);
    assert (offset / a + 1) * a == (offset / a) * a + a;
    Multiple(offset / a + 1, a);
  }

  lemma ConsLaidOut(p: Position, c: Component, rest: seq<Component>, end: Position, largest: nat)
    requires PlaceAlignment(c) > 0 && !c.ty.ExtInt? && p.bits < BYTE
    requires !IsBits(c.ty) ==> p.bits == 0
    requires Gap(p, c) == 0 && LaidOut(rest, After(p, c, []), end, largest)
    ensures LaidOut([c] + rest, p, end, Max(PlaceAlignment(c), largest))
  {
    hide Alignment, SizeBits;
    assert ([c] + rest)[1..] == rest;
    assert After(p, c, []) == After(p, c, rest);
    assert Aligned([c] + rest);
  }

  lemma AfterPad(p: Position, bytes: nat, index: nat)
    requires bytes > 0
    ensures After(p, PadOf(bytes, index), []) == p.(offset := p.offset + bytes)
  {}

  // A pad behind a laid out list.
  lemma {:induction false} SnocLaidOut(cs: seq<Component>, p: Position, end: Position, largest: nat, bytes: nat,
      index: nat)
    requires LaidOut(cs, p, end, largest) && bytes > 0 && p.bits < BYTE
    ensures LaidOut(cs + [PadOf(bytes, index)], p, end.(offset := end.offset + bytes), Max(largest, 1))
    ensures end.bits == 0
  {
    hide Alignment, SizeBits;
    var pad := PadOf(bytes, index);
    AfterPad(p, bytes, index);
    if cs == [] {
      assert LaidOut([], After(p, pad, []), After(p, pad, []), 0);
      ConsLaidOut(p, pad, [], After(p, pad, []), 0);
      assert cs + [pad] == [pad] + [];
    } else {
      AlignedTail(cs);
      var c, rest := cs[0], cs[1..];
      assert NoExt(rest);
      SnocLaidOut(rest, After(p, c, rest), end, LargestPlace(rest), bytes, index);
      assert cs + [pad] == [c] + (rest + [pad]);
      assert After(p, c, []) == After(p, c, rest);
      ConsLaidOut(p, c, rest + [pad], end.(offset := end.offset + bytes), Max(LargestPlace(rest), 1));
    }
  }

  /** A padded struct list: laid out, and rounded to its largest alignment. */
  lemma PadStructLaysOut(cs: seq<Component>, attr: Attr) returns (end: Position, largest: nat)
    requires WellFormedAll(cs) && NoExt(cs) && !(attr.packed && attr.align.None?)
    ensures Aligned(BitPass(cs, 0, 0)) && LaidOut(PadStruct(cs, attr), Position(0, 0), end, largest)
    ensures end.bits == 0
    ensures var m := Max(LargestPlace(BitPass(cs, 0, 0)), Given(attr));
      && Max(largest, Given(attr)) == m && (m > 1 ==> end.offset % m == 0)
      && end.offset == RoundUp(PlaceEnd(BitPass(cs, 0, 0), Position(0, 0)).offset, Max(1, m))
  {
    hide Alignment, SizeBits;
    var first, start := BitPass(cs, 0, 0), Position(0, 0);
    PadStructWellFormed(cs, attr);
    BitPassEnds(cs, 0, 0);
    BitPassNoExt(cs, 0, 0);
    PlacePassLaysOut(first, start, 0);
    var second := PlacePass(first, start, 0);
    end, largest := PlaceEnd(first, start), LargestPlace(first);
    EndsOnByte(second, start);
    end, largest := RoundedUp(second, start, end, largest, Given(attr));
  }

  // The pad at the end makes the size a multiple of the largest alignment, given or met.
  lemma RoundedUp(second: seq<Component>, start: Position, end0: Position, largest0: nat, given: nat)
    returns (end: Position, largest: nat)
    requires LaidOut(second, start, end0, largest0) && end0.bits == 0 && start.bits < BYTE
    ensures var m := Max(largest0, given);
      && LaidOut(second + EndPad(end0.offset, m, |second|), start, end, largest)
      && end.bits == 0 && Max(largest, given) == m && (m > 1 ==> end.offset % m == 0)
      && end.offset == RoundUp(end0.offset, Max(1, m))
  {
    hide LaidOut;
    end, largest := end0, largest0;
    var m := Max(largest, given);
    if m > 1 && end.offset % m != 0 {
      SnocLaidOut(second, start, end, largest, m - end.offset % m, |second|);
      GapFills(end.offset, m);
      end := end.(offset := end.offset + (m - end.offset % m));
      largest := Max(largest, 1);
    } else {
      assert second + [] == second;
    }
  }

  lemma {:induction false} EndsOnByte(cs: seq<Component>, p: Position)
    requires Aligned(cs) && Placed(cs, p) && RunsEnd(cs, p.bits) && p.bits < BYTE && NoExt(cs)
    ensures PlaceEnd(cs, p).bits == 0
  {
    hide Alignment, SizeBits;
    hide After, Gap, PlaceAlignment;
    if cs != [] {
      AlignedTail(cs);
      PlacedEnd(cs, p);
      BitsAfter(p, cs[0], cs[1..]);
      assert NoExt(cs[1..]);
      EndsOnByte(cs[1..], After(p, cs[0], cs[1..]));
    }
  }

  lemma PlacedEnd(cs: seq<Component>, p: Position)
    requires cs != [] && Aligned(cs) && Placed(cs, p)
    ensures Aligned(cs[1..]) && PlaceEnd(cs, p) == PlaceEnd(cs[1..], After(p, cs[0], cs[1..]))
  {
    hide Alignment, SizeBits;
    AlignedTail(cs);
  }

  lemma BitsAfter(p: Position, c: Component, next: seq<Component>)
    requires !c.ty.ExtInt?
    ensures After(p, c, next).bits == if IsBits(c.ty) then (p.bits + c.ty.width) % BYTE else p.bits
  {}

  lemma PadStructFixed(cs: seq<Component>, attr: Attr)
    requires WellFormedAll(cs) && NoExt(cs)
    ensures Aligned(BitPass(cs, 0, 0)) && Aligned(BitPass(PadStruct(cs, attr), 0, 0))
    ensures PadStruct(PadStruct(cs, attr), attr) == PadStruct(cs, attr)
  {
    PadStructWellFormed(cs, attr);
    var r := PadStruct(cs, attr);
    PadStructWellFormed(r, attr);
    if attr.packed && attr.align.None? {
      BitPassEnds(cs, 0, 0);
      BitPassNoExt(cs, 0, 0);
      BitPassFixed(r, 0, 0);
    } else {
      var end, largest := PadStructLaysOut(cs, attr);
      BitPassFixed(r, 0, 0);
      PlacedFixed(r, Position(0, 0), 0);
      assert r + [] == r;
    }
  }

  /** The number of ExtInt members and pads that padding reaches. */
  function ExtCount(t: Type): nat {
    match t
    case Struct(comps, _) => ExtCountAll(comps)
    case ExtInt(_, _) => 1
    case _ => 0
  }

  function ExtCountAll(cs: seq<Component>): nat {
    if cs == [] then 0
    else
      assert cs[0].ty < cs[0];
      ExtCount(cs[0].ty) + ExtCountAll(cs[1..])
  }

  lemma {:induction false} ExtCountConcat(xs: seq<Component>, ys: seq<Component>)
    ensures ExtCountAll(xs + ys) == ExtCountAll(xs) + ExtCountAll(ys)
  {
    if xs == [] {
      assert xs + ys == ys;
    } else {
      assert (xs + ys)[1..] == xs[1..] + ys && (xs + ys)[0] == xs[0];
      ExtCountConcat(xs[1..], ys);
    }
  }

  lemma ExtCountCons(c: Component, cs: seq<Component>)
    ensures ExtCountAll([c] + cs) == ExtCount(c.ty) + ExtCountAll(cs)
  {
    assert ([c] + cs)[1..] == cs;
  }

  /** The number of ExtInt components of a list itself. */
  function DirectExt(cs: seq<Component>): nat {
    if cs == [] then 0 else (if cs[0].ty.ExtInt? then 1 else 0) + DirectExt(cs[1..])
  }

  lemma {:induction false} NoDirectExt(cs: seq<Component>)
    ensures DirectExt(cs) == 0 <==> NoExt(cs)
    ensures DirectExt(cs) <= ExtCountAll(cs)
  {
    if cs != [] {
      NoDirectExt(cs[1..]);
      assert NoExt(cs) <==> !cs[0].ty.ExtInt? && NoExt(cs[1..]);
    }
  }

  /** The first pass adds one ExtInt pad for each ExtInt component. */
  lemma {:induction false} BitPassExt(cs: seq<Component>, bits: nat, index: nat)
    ensures ExtCountAll(BitPass(cs, bits, index)) == ExtCountAll(cs) + DirectExt(cs)
  {
    hide BitHead, RunAfter;
    if cs == [] {
      BitPadNoExt(bits, index);
    } else {
      var head := BitHead(cs[0], bits, index);
      BitPassExt(cs[1..], RunAfter(cs[0], bits), index + |head|);
      ExtCountConcat(head, BitPass(cs[1..], RunAfter(cs[0], bits), index + |head|));
      BitHeadExt(cs[0], bits, index);
    }
  }

  lemma BitPadNoExt(bits: nat, index: nat)
    ensures ExtCountAll(BitPadBefore(bits, index)) == 0
  {
    var pre := BitPadBefore(bits, index);
    assert pre == [] || pre[1..] == [];
  }

  lemma BitHeadExt(c: Component, bits: nat, index: nat)
    ensures ExtCountAll(BitHead(c, bits, index)) == ExtCount(c.ty) + if c.ty.ExtInt? then 1 else 0
  {
    if IsBits(c.ty) {
      ExtCountCons(c, []);
      assert [c] + [] == [c];
    } else {
      var pre := BitPadBefore(bits, index);
      var post := ExtPadAfter(c, index + |pre| + 1);
      BitPadNoExt(bits, index);
      ExtCountConcat(pre + [c], post);
      ExtCountConcat(pre, [c]);
      ExtCountCons(c, []);
      assert [c] + [] == [c];
      assert post != [] ==> post == [post[0]] + [];
      if post != [] {
        ExtCountCons(post[0], []);
      }
    }
  }

  lemma {:induction false} PlacePassExt(cs: seq<Component>, p: Position, index: nat)
    requires Aligned(cs)
    ensures ExtCountAll(PlacePass(cs, p, index)) == ExtCountAll(cs)
  {
    hide PlaceHead, PlaceAfter, Alignment;
    if cs != [] {
      AlignedTail(cs);
      var head, q := PlaceHead(p, cs[0], index), PlaceAfter(p, cs[0], cs[1..]);
      PlacePassExt(cs[1..], q, index + |head|);
      ExtCountConcat(head, PlacePass(cs[1..], q, index + |head|));
      PlaceHeadExt(p, cs[0], index);
    }
  }

  lemma PlaceHeadExt(p: Position, c: Component, index: nat)
    requires PlaceAlignment(c) > 0
    ensures ExtCountAll(PlaceHead(p, c, index)) == ExtCount(c.ty)
  {
    ExtCountCons(c, []);
    assert [c] + [] == [c];
    var gap := Gap(p, c);
    if gap != 0 {
      ExtCountCons(PadOf(gap, index), [c]);
      assert [PadOf(gap, index)] + [c] == [PadOf(gap, index), c];
    }
  }

  lemma PadStructExt(cs: seq<Component>, attr: Attr)
    requires WellFormedAll(cs)
    ensures Aligned(BitPass(cs, 0, 0))
    ensures ExtCountAll(PadStruct(cs, attr)) == ExtCountAll(cs) + DirectExt(cs)
  {
    var first := BitPass(cs, 0, 0);
    PadStructWellFormed(cs, attr);
    BitPassExt(cs, 0, 0);
    PlacePassExt(first, Position(0, 0), 0);
    var second := PlacePass(first, Position(0, 0), 0);
    var end := EndPad(PlaceEnd(first, Position(0, 0)).offset, Max(LargestPlace(first), Given(attr)), |second|);
    ExtCountConcat(second, end);
    assert end == [] || end[1..] == [];
  }

  /** Padding a struct doubles the ExtInt components in it and in the structs nested in it. */
  lemma {:induction false} PaddingDoublesExt(t: Type)
    requires WellFormed(t)
    ensures ExtCount(PadType(t)) == if t.Struct? then 2 * ExtCount(t) else ExtCount(t)
    decreases t, 0
  {
    if t.Struct? {
      PadTypesExt(t.comps);
      PadStructExt(PadTypes(t.comps), t.attr);
    }
  }

  lemma {:induction false} PadTypesExt(cs: seq<Component>)
    requires WellFormedAll(cs)
    ensures ExtCountAll(PadTypes(cs)) + DirectExt(PadTypes(cs)) == 2 * ExtCountAll(cs)
    decreases cs, 1
  {
    if cs != [] {
      assert cs[0].ty < cs[0];
      PaddingDoublesExt(cs[0].ty);
      PadTypesExt(cs[1..]);
      assert PadTypes(cs)[1..] == PadTypes(cs[1..]);
      assert PadTypes(cs)[0].ty == PadType(cs[0].ty);
    }
  }

  lemma {:induction false} ExtOnlyDirect(cs: seq<Component>)
    requires WellFormedAll(cs) && ExtCountAll(cs) == 0
    ensures NoExt(PadTypes(cs))
    ensures forall k :: 0 <= k < |cs| ==> ExtCount(cs[k].ty) == 0
  {
    if cs != [] {
      ExtOnlyDirect(cs[1..]);
      assert PadTypes(cs)[1..] == PadTypes(cs[1..]);
      forall k | 0 <= k < |cs| ensures ExtCount(cs[k].ty) == 0 && !PadTypes(cs)[k].ty.ExtInt? {
        if k > 0 {
          assert cs[k] == cs[1..][k - 1] && PadTypes(cs)[k] == PadTypes(cs[1..])[k - 1];
        }
      }
    }
  }

  /** What padding leaves in a struct list: components of the list, and pads that padding does
      not touch. */
  ghost predicate KeptOrPad(c: Component, cs: seq<Component>) {
    c in cs || !(c.ty.Struct? || c.ty.Union?)
  }

  lemma {:induction false} BitPassKeeps(cs: seq<Component>, bits: nat, index: nat)
    ensures forall c <- BitPass(cs, bits, index) :: KeptOrPad(c, cs)
  {
    if cs != [] {
      var head := BitHead(cs[0], bits, index);
      BitPassKeeps(cs[1..], RunAfter(cs[0], bits), index + |head|);
      forall c <- BitPass(cs, bits, index) ensures KeptOrPad(c, cs) {
        if c in head {
          assert c == cs[0] || KeptOrPad(c, cs);
        }
      }
    }
  }

  lemma {:induction false} PlacePassKeeps(cs: seq<Component>, p: Position, index: nat)
    requires Aligned(cs)
    ensures forall c <- PlacePass(cs, p, index) :: KeptOrPad(c, cs)
  {
    hide Alignment;
    if cs != [] {
      AlignedTail(cs);
      var head, q := PlaceHead(p, cs[0], index), PlaceAfter(p, cs[0], cs[1..]);
      PlacePassKeeps(cs[1..], q, index + |head|);
    }
  }

  lemma PadStructKeeps(cs: seq<Component>, attr: Attr)
    requires Aligned(BitPass(cs, 0, 0))
    ensures forall c <- PadStruct(cs, attr) :: KeptOrPad(c, cs)
  {
    BitPassKeeps(cs, 0, 0);
    PlacePassKeeps(BitPass(cs, 0, 0), Position(0, 0), 0);
  }

  /** Padded types are fixed, component by component. */
  lemma {:induction false} PadTypesFixed(cs: seq<Component>)
    requires WellFormedAll(cs)
    requires forall c <- cs :: PadType(c.ty) == c.ty
    ensures PadTypes(cs) == cs
  {
    if cs != [] {
      PadTypesFixed(cs[1..]);
      assert cs == [cs[0]] + cs[1..];
    }
  }

  lemma {:induction false} MaxSnoc(cs: seq<Component>, c: Component)
    ensures MaxBits(cs + [c]) == Max(MaxBits(cs), SizeBits(c.ty))
    ensures MaxAlignment(cs + [c]) == Max(MaxAlignment(cs), Alignment(c.ty))
  {
    if cs == [] {
      assert cs + [c] == [c] && [c][1..] == [];
    } else {
      assert (cs + [c])[1..] == cs[1..] + [c] && (cs + [c])[0] == cs[0];
      MaxSnoc(cs[1..], c);
    }
  }

  /** After padding, a union's size is a multiple of its unit, which may have grown: the pad is
      a member too. */
  lemma PadUnionRounds(cs: seq<Component>, attr: Attr)
    requires WellFormedAll(cs)
    ensures UnionUnit(cs, attr) > 0 && UnionUnit(PadUnion(cs, attr), attr) > 0
    ensures MaxBits(PadUnion(cs, attr)) % UnionUnit(PadUnion(cs, attr), attr) == 0
    ensures MaxBits(PadUnion(cs, attr)) == RoundUp(MaxBits(cs), UnionUnit(cs, attr))
  {
    hide Alignment, SizeBits, MaxBits, UnionUnit, RoundUp;
    PadUnionWellFormed(cs, attr);
    var size, unit := MaxBits(cs), UnionUnit(cs, attr);
    UnionUnitInBytes(cs, attr);
    RoundUpBytes(size, unit);
    var whole := RoundUp(size, unit);
    if size % unit != 0 {
      var pad := Component(UnionPad, Scalar(whole / BYTE, PLAIN), true);
      PadSize(whole, pad);
      MaxSnoc(cs, pad);
      NotBelow(size, unit);
      UnionUnitGrows(cs, attr, pad, whole);
      assert PadUnion(cs, attr) == cs + [pad];
    } else {
      NoRounding(size, unit);
    }
  }

  lemma UnionUnitInBytes(cs: seq<Component>, attr: Attr)
    ensures UnionUnit(cs, attr) % BYTE == 0
  {}

  lemma PadSize(whole: nat, pad: Component)
    requires whole % BYTE == 0 && pad.ty == Scalar(whole / BYTE, PLAIN)
    ensures SizeBits(pad.ty) == whole
  {}

  lemma NotBelow(size: nat, unit: nat)
    requires unit > 0 && size % unit != 0
    ensures size > 0
  {}

  lemma NoRounding(size: nat, unit: nat)
    requires unit > 0 && size % unit == 0
    ensures RoundUp(size, unit) == size
  {}

  lemma UnionUnitGrows(cs: seq<Component>, attr: Attr, pad: Component, whole: nat)
    requires WellFormedAll(cs) && UnionUnit(cs, attr) > 0
    requires whole % BYTE == 0 && whole % UnionUnit(cs, attr) == 0 && whole >= UnionUnit(cs, attr)
    requires pad.ty == Scalar(whole / BYTE, PLAIN) && whole / BYTE > 0
    ensures UnionUnit(cs + [pad], attr) > 0 && whole % UnionUnit(cs + [pad], attr) == 0
  {
    MaxSnoc(cs, pad);
    var unit := UnionUnit(cs + [pad], attr);
    assert unit == UnionUnit(cs, attr) || unit == whole;
    Multiple(1, whole);
  }

  lemma PadUnionFixed(cs: seq<Component>, attr: Attr)
    requires WellFormedAll(cs)
    ensures UnionUnit(cs, attr) > 0 && UnionUnit(PadUnion(cs, attr), attr) > 0
    ensures PadUnion(PadUnion(cs, attr), attr) == PadUnion(cs, attr)
  {
    PadUnionRounds(cs, attr);
  }

  /** add_padding is idempotent on a type exactly if no struct that it pads has an ExtInt
      component: for those it inserts one more pad on every run. */
  lemma {:induction false} IdempotentUnlessExt(t: Type)
    requires WellFormed(t)
    ensures PadType(PadType(t)) == PadType(t) <==> !(t.Struct? && ExtCount(t) > 0)
    decreases t
  {
    match t
    case Struct(comps, attr) =>
      if ExtCount(t) > 0 {
        PaddingDoublesExt(t);
        PaddingDoublesExt(PadType(t));
      } else {
        var inner := PadTypes(comps);
        ExtOnlyDirect(comps);
        PadStructWellFormed(inner, attr);
        var r := PadStruct(inner, attr);
        PadStructKeeps(inner, attr);
        forall c <- r ensures PadType(c.ty) == c.ty {
          if c in inner && (c.ty.Struct? || c.ty.Union?) {
            var k :| 0 <= k < |inner| && inner[k] == c;
            PadTypesAt(comps, k);
            assert comps[k].ty < comps[k];
            IdempotentUnlessExt(comps[k].ty);
          }
        }
        PadTypesFixed(r);
        PadStructFixed(inner, attr);
      }
    case Union(comps, attr) =>
      PadUnionWellFormed(comps, attr);
      PadUnionFixed(comps, attr);
    case _ =>
  }
}
