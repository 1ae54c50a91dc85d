/** Where padding puts the members of a struct: exactly where the rule that needs no padding members
    says, each member at the first place after the one before it that suits its alignment. */
module ReferenceLayout {
  import opened Options
  import opened Powers
  import opened Padding
  import opened PaddingLaws
  import opened LayoutLaws
  import opened TypeLaws

  // ---- The rule ----------------------------------------------------------------------------

  /** The least multiple of a unit that is not below x. */
  function Up(x: nat, unit: nat): nat
    requires unit > 0
  {
    ((x + unit - 1) / unit) * unit
  }

  lemma UpIsLeast(x: nat, unit: nat)
    requires unit > 0
    ensures Up(x, unit) % unit == 0 && x <= Up(x, unit) < x + unit
  {
    DivMod(x + unit - 1, unit);
    Multiple((x + unit - 1) / unit, unit);
  }

  lemma UpUnique(x: nat, unit: nat, r: nat)
    requires unit > 0 && r % unit == 0 && x <= r < x + unit
    ensures r == Up(x, unit)
  {
    DivMod(r, unit);
    DivUnique(x + unit - 1, unit, r / unit, x + unit - 1 - r);
  }

  /** The bits that a member takes: an ExtInt as many as the bytes that represent it. */
  ghost function Room(t: Type): nat {
    if t.ExtInt? then (if t.width == 0 then 0 else ReprBytes(t.width, 1) * 8) else SizeBits(t)
  }

  /** Where a member starts, in bits, if the one before it ends at `end`: a bit-field with bits right
      there, any other member at the next multiple of its alignment, or, in a struct that is packed
      densely, at the next byte. */
  ghost function Start(c: Component, end: nat, dense: bool): nat
    requires WellFormed(c.ty)
  {
    AlignmentPositive(c.ty);
    if c.ty.BitField? && c.ty.width > 0 then end
    else Up(end, if dense then 8 else Alignment(c.ty) * 8)
  }

  /** A member and the bits in front of it. */
  datatype Placement = Placement(member: Component, start: nat)

  /** Where the members go that follow a place. */
  ghost function ByRule(cs: seq<Component>, end: nat, dense: bool): (r: seq<Placement>)
    requires WellFormedAll(cs)
    ensures |r| == |cs|
  {
    if cs == [] then []
    else
      assert cs[0] in cs;
      var start := Start(cs[0], end, dense);
      [Placement(cs[0], start)] + ByRule(cs[1..], start + Room(cs[0].ty), dense)
  }

  /** Where the last of them ends. */
  ghost function Ends(cs: seq<Component>, end: nat, dense: bool): nat
    requires WellFormedAll(cs)
  {
    if cs == [] then end
    else
      assert cs[0] in cs;
      Ends(cs[1..], Start(cs[0], end, dense) + Room(cs[0].ty), dense)
  }

  // ---- Offsets in a padded list ------------------------------------------------------------

  /** The members of a list that are no padding, if the list starts at `at`: each after all components
      in front of it. */
  ghost function Placements(r: seq<Component>, at: nat): seq<Placement> {
    if r == [] then []
    else (if r[0].padding then [] else [Placement(r[0], at)]) + Placements(r[1..], at + SizeBits(r[0].ty))
  }

  lemma OffsetsStep(r: seq<Component>, at: nat)
    requires r != []
    ensures Placements(r, at) ==
      (if r[0].padding then [] else [Placement(r[0], at)]) + Placements(r[1..], at + SizeBits(r[0].ty))
    ensures SumBits(r) == SizeBits(r[0].ty) + SumBits(r[1..])
  {}

  lemma {:induction false} OffsetsConcat(x: seq<Component>, y: seq<Component>, at: nat)
    ensures Placements(x + y, at) == Placements(x, at) + Placements(y, at + SumBits(x))
  {
    hide SizeBits;
    if x == [] {
      assert x + y == y;
    } else {
      assert (x + y)[1..] == x[1..] + y && (x + y)[0] == x[0];
      hide Placements, SumBits;
      OffsetsStep(x + y, at);
      OffsetsStep(x, at);
      OffsetsConcat(x[1..], y, at + SizeBits(x[0].ty));
    }
  }

  lemma {:induction false} SumConcat(x: seq<Component>, y: seq<Component>)
    ensures SumBits(x + y) == SumBits(x) + SumBits(y)
  {
    hide SizeBits;
    if x == [] {
      assert x + y == y;
    } else {
      assert (x + y)[1..] == x[1..] + y && (x + y)[0] == x[0];
      SumConcat(x[1..], y);
    }
  }

  lemma OffsetsOfOne(c: Component, at: nat)
    ensures Placements([c], at) == (if c.padding then [] else [Placement(c, at)]) && SumBits([c]) == SizeBits(c.ty)
  {
    hide SizeBits;
    assert [c][1..] == [];
  }

  lemma OffsetsOfPad(pad: Component, rest: seq<Component>, at: nat)
    requires pad.padding
    ensures Placements([pad] + rest, at) == Placements(rest, at + SizeBits(pad.ty))
    ensures SumBits([pad] + rest) == SizeBits(pad.ty) + SumBits(rest)
  {
    hide SizeBits;
    OffsetsConcat([pad], rest, at);
    SumConcat([pad], rest);
    OffsetsOfOne(pad, at);
  }

  lemma OffsetsOfMember(c: Component, rest: seq<Component>, at: nat)
    requires !c.padding
    ensures Placements([c] + rest, at) == [Placement(c, at)] + Placements(rest, at + SizeBits(c.ty))
    ensures SumBits([c] + rest) == SizeBits(c.ty) + SumBits(rest)
  {
    hide SizeBits;
    OffsetsConcat([c], rest, at);
    SumConcat([c], rest);
    OffsetsOfOne(c, at);
  }

  // ---- The first pass ----------------------------------------------------------------------

  /** Components that are neither bit-fields nor ExtInts take whole bytes. */
  ghost predicate WholeMembers(cs: seq<Component>) {
    forall c <- cs :: !c.ty.BitField? && !c.ty.ExtInt? ==> SizeBits(c.ty) % 8 == 0
  }

  // An ExtInt and the pad behind it take the bytes that represent it.
  lemma ExtPadFills(c: Component, index: nat)
    requires c.ty.ExtInt?
    ensures var pad := ExtPadOf(c.ty.width, index);
      && SizeBits(c.ty) == c.ty.width && SizeBits(pad.ty) == pad.ty.width
      && c.ty.width + pad.ty.width == Room(c.ty) && Room(c.ty) % 8 == 0
  {
    var repr := ReprBytes(c.ty.width, 1) * BYTE;
    Multiple(ReprBytes(c.ty.width, 1), BYTE);
    if 0 < c.ty.width < repr {
      DivUnique(c.ty.width, repr, 0, c.ty.width);
    } else if c.ty.width == repr {
      DivUnique(repr, repr, 1, 0);
    } else {
      DivUnique(0, repr, 0, 0);
    }
  }

  // The bits missing to a whole byte.
  lemma BitPadFills(at: nat, bits: nat)
    requires at % 8 == bits % 8
    ensures bits % 8 == 0 ==> Up(at, 8) == at
    ensures bits % 8 != 0 ==> Up(at, 8) == at + (8 - bits % 8)
  {
    UpUnique(at, 8, if bits % 8 == 0 then at else at + (8 - bits % 8));
  }

  /** What the pads in front of a member add to the offset of a run. */
  lemma OverBitPad(bits: nat, index: nat, rest: seq<Component>, at: nat)
    requires at % 8 == bits % 8
    ensures Placements(BitPadBefore(bits, index) + rest, at) == Placements(rest, Up(at, 8))
    ensures at + SumBits(BitPadBefore(bits, index) + rest) == Up(at, 8) + SumBits(rest)
  {
    BitPadFills(at, bits);
    if bits % BYTE != 0 {
      OffsetsOfPad(BitPadOf(bits, index), rest, at);
    } else {
      assert BitPadBefore(bits, index) + rest == rest;
    }
  }

  lemma WholeRoom(c: Component)
    requires !IsBits(c.ty) && WholeMembers([c])
    ensures Room(c.ty) % 8 == 0
  {
    assert c in [c];
    if c.ty.ExtInt? {
      Multiple(ReprBytes(c.ty.width, 1), 8);
    }
  }

  // A member that is no bit-field, with the pad of an ExtInt, at a place that suits it.
  lemma OverWhole(c: Component, index: nat, rest: seq<Component>, at: nat)
    requires !c.padding && !IsBits(c.ty)
    ensures Placements([c] + ExtPadAfter(c, index) + rest, at) == [Placement(c, at)] + Placements(rest, at + Room(c.ty))
    ensures SumBits([c] + ExtPadAfter(c, index) + rest) == Room(c.ty) + SumBits(rest)
  {
    hide SizeBits, ReprBytes, Placements, SumBits;
    var post := ExtPadAfter(c, index);
    assert [c] + post + rest == [c] + (post + rest);
    OffsetsOfMember(c, post + rest, at);
    if c.ty.ExtInt? {
      ExtPadFills(c, index);
      OffsetsOfPad(ExtPadOf(c.ty.width, index), rest, at + SizeBits(c.ty));
    } else {
      assert post + rest == rest;
    }
  }

  /** A densely packed struct: only the first pass is made. */
  lemma {:induction false} DensePass(cs: seq<Component>, bits: nat, index: nat, at: nat)
    requires WellFormedAll(cs) && NoPads(cs) && WholeMembers(cs) && at % 8 == bits % 8
    ensures Placements(BitPass(cs, bits, index), at) == ByRule(cs, at, true)
    ensures at + SumBits(BitPass(cs, bits, index)) == Up(Ends(cs, at, true), 8)
    decreases cs
  {
    hide SizeBits, Up, Start, BitPadBefore, BitHead, RunAfter, Placements, SumBits, Room;
    hide WellFormedAll, WholeMembers, NoPads;
    if cs == [] {
      DenseEnd(bits, index, at);
    } else {
      var c, next := cs[0], RunAfter(cs[0], bits);
      var head := BitHead(c, bits, index);
      MemberParts(cs);
      var start := Start(c, at, true);
      DenseHead(c, bits, index, BitPass(cs[1..], next, index + |head|), at);
      DensePass(cs[1..], next, index + |head|, start + Room(c.ty));
    }
  }

  lemma MemberParts(cs: seq<Component>)
    requires cs != [] && WellFormedAll(cs) && NoPads(cs) && WholeMembers(cs)
    ensures WellFormed(cs[0].ty) && !cs[0].padding && WholeMembers([cs[0]])
    ensures WellFormedAll(cs[1..]) && NoPads(cs[1..]) && WholeMembers(cs[1..])
  {
    assert cs[0] in cs;
  }

  lemma DenseEnd(bits: nat, index: nat, at: nat)
    requires at % 8 == bits % 8
    ensures Placements(BitPass([], bits, index), at) == []
    ensures at + SumBits(BitPass([], bits, index)) == Up(at, 8)
  {
    hide SizeBits, Up;
    OverBitPad(bits, index, [], at);
    assert BitPadBefore(bits, index) + [] == BitPadBefore(bits, index);
  }

  lemma DenseHead(c: Component, bits: nat, index: nat, tail: seq<Component>, at: nat)
    requires WellFormed(c.ty) && !c.padding && WholeMembers([c]) && at % 8 == bits % 8
    ensures var start := Start(c, at, true);
      && Placements(BitHead(c, bits, index) + tail, at) == [Placement(c, start)] + Placements(tail, start + Room(c.ty))
      && at + SumBits(BitHead(c, bits, index) + tail) == start + Room(c.ty) + SumBits(tail)
      && (start + Room(c.ty)) % 8 == RunAfter(c, bits) % 8
  {
    hide SizeBits, Up, BitPadBefore, Placements, SumBits;
    if IsBits(c.ty) {
      BitsSize(c.ty);
      BitsRun(at, bits, c.ty.width);
      OffsetsOfMember(c, tail, at);
    } else {
      var pre := BitPadBefore(bits, index);
      var i, start := index + |pre| + 1, Up(at, 8);
      var whole := [c] + ExtPadAfter(c, i) + tail;
      UpIsLeast(at, 8);
      WholeRoom(c);
      OverBitPad(bits, index, whole, at);
      assert BitHead(c, bits, index) + tail == pre + whole;
      OverWhole(c, i, tail, start);
    }
  }

  lemma BitsRun(at: nat, bits: nat, width: nat)
    requires at % 8 == bits % 8
    ensures (at + width) % 8 == (bits + width) % 8
  {}

  // ---- Both passes -------------------------------------------------------------------------

  /** The position with this many bits in front of it. */
  function PositionAt(at: nat): Position {
    Position(at / 8, at % 8)
  }

  // A component that takes bits goes where the position is.
  lemma PlaceBits(c: Component, rest: seq<Component>, at: nat, index: nat)
    requires IsBits(c.ty) && Aligned([c] + rest)
    ensures Aligned(rest)
    ensures PlacePass([c] + rest, PositionAt(at), index) ==
      [c] + PlacePass(rest, PositionAt(at + c.ty.width), index + 1)
    ensures PlaceEnd([c] + rest, PositionAt(at)) == PlaceEnd(rest, PositionAt(at + c.ty.width))
  {
    hide Alignment;
    assert ([c] + rest)[1..] == rest;
    AlignedTail([c] + rest);
    BitsMove(at, c.ty.width);
    assert After(PositionAt(at), c, rest) == PositionAt(at + c.ty.width);
    assert PlaceHead(PositionAt(at), c, index) == [c];
  }

  lemma BitsMove(at: nat, width: nat)
    ensures at / 8 + (at % 8 + width) / 8 == (at + width) / 8 && (at % 8 + width) % 8 == (at + width) % 8
  {}

  // A member with the pad in front of it, if it starts later than it could.
  ghost function PaddedMember(c: Component, at: nat, start: nat, index: nat): seq<Component> {
    (if start > at then [PadOf((start - at) / 8, index)] else []) + [c]
  }

  // Any other member goes to the next multiple of its alignment.
  lemma PlaceWhole(c: Component, rest: seq<Component>, at: nat, index: nat)
    requires !IsBits(c.ty) && !c.padding && WellFormed(c.ty) && at % 8 == 0 && Aligned([c] + rest)
    ensures Aligned(rest)
    ensures var start := Start(c, at, false); var head := PaddedMember(c, at, start, index);
      && start % 8 == 0 && start >= at
      && PlacePass([c] + rest, PositionAt(at), index) ==
         head + PlacePass(rest, After(PositionAt(start), c, rest), index + |head|)
      && PlaceEnd([c] + rest, PositionAt(at)) == PlaceEnd(rest, After(PositionAt(start), c, rest))
  {
    hide Alignment, After, Up;
    assert ([c] + rest)[1..] == rest;
    AlignedTail([c] + rest);
    AlignmentPositive(c.ty);
    GapToStart(at, Alignment(c.ty));
    assert PlaceHead(PositionAt(at), c, index) == PaddedMember(c, at, Start(c, at, false), index);
  }

  lemma GapToStart(at: nat, a: nat)
    requires a > 0 && at % 8 == 0
    ensures var gap := if (at / 8) % a != 0 then a - (at / 8) % a else 0;
      Up(at, a * 8) == at + gap * 8 && PositionAt(at + gap * 8) == Position(at / 8 + gap, 0)
  {
    var gap := if (at / 8) % a != 0 then a - (at / 8) % a else 0;
    if gap > 0 {
      GapFills(at / 8, a);
    }
    OffsetInBits(at / 8 + gap, a);
    UpUnique(at, a * 8, at + gap * 8);
  }

  // The offsets of a member and what follows it, with the pad in front of it.
  lemma OverHead(c: Component, at: nat, start: nat, index: nat, rest: seq<Component>)
    requires !c.padding && start >= at && (start - at) % 8 == 0
    ensures var head := PaddedMember(c, at, start, index);
      && Placements(head + rest, at) == [Placement(c, start)] + Placements(rest, start + SizeBits(c.ty))
      && at + SumBits(head + rest) == start + SizeBits(c.ty) + SumBits(rest)
  {
    hide Placements, SumBits;
    OffsetsOfMember(c, rest, start);
    if start > at {
      var pad := PadOf((start - at) / 8, index);
      assert SizeBits(pad.ty) == start - at;
      OffsetsOfPad(pad, [c] + rest, at);
      assert [pad] + [c] + rest == [pad] + ([c] + rest);
    } else {
      assert [] + [c] + rest == [c] + rest;
    }
  }

  /** What both passes make of one member: it starts where the rule says, and the rest follows it. */
  ghost predicate PlacedBy(list: seq<Component>, at: nat, index: nat, first: Placement, tail: seq<Component>,
      end: nat, index': nat)
    requires Aligned(list) && Aligned(tail)
  {
    var r, rest := PlacePass(list, PositionAt(at), index), PlacePass(tail, PositionAt(end), index');
    && Placements(r, at) == [first] + Placements(rest, end)
    && at + SumBits(r) == end + SumBits(rest)
    && PlaceEnd(list, PositionAt(at)) == PlaceEnd(tail, PositionAt(end))
  }

  lemma PlaceMember(c: Component, i: nat, tail: seq<Component>, at: nat, index: nat) returns (index': nat)
    requires !IsBits(c.ty) && !c.padding && WellFormed(c.ty) && WholeMembers([c]) && at % 8 == 0
    requires Aligned([c] + (ExtPadAfter(c, i) + tail))
    ensures Aligned(tail)
    ensures var start := Start(c, at, false);
      PlacedBy([c] + (ExtPadAfter(c, i) + tail), at, index, Placement(c, start), tail, start + Room(c.ty), index')
  {
    hide Alignment, SizeBits, ReprBytes, Placements, SumBits, Start, PlacePass, PlaceEnd, After;
    var post := ExtPadAfter(c, i) + tail;
    var start := Start(c, at, false);
    PlaceWhole(c, post, at, index);
    WholeRoom(c);
    var q := After(PositionAt(start), c, post);
    index' := index + |PaddedMember(c, at, start, index)|;
    OverHead(c, at, start, index, PlacePass(post, q, index'));
    if c.ty.ExtInt? {
      var pad := ExtPadOf(c.ty.width, i);
      assert post == [pad] + tail;
      ExtPadFills(c, i);
      ExtAfter(c, start, pad, tail);
      PlaceExtPad(pad, tail, q, index');
      OffsetsOfPad(pad, PlacePass(tail, q, index' + 1), start + SizeBits(c.ty));
      index' := index' + 1;
    } else {
      assert post == tail;
      WholeAfter(c, start, post);
    }
  }

  lemma PlaceExtPad(pad: Component, rest: seq<Component>, p: Position, index: nat)
    requires pad.padding && pad.ty.ExtInt? && Aligned([pad] + rest)
    ensures Aligned(rest)
    ensures PlacePass([pad] + rest, p, index) == [pad] + PlacePass(rest, p, index + 1)
    ensures PlaceEnd([pad] + rest, p) == PlaceEnd(rest, p)
  {
    hide Alignment;
    assert ([pad] + rest)[1..] == rest;
    AlignedTail([pad] + rest);
  }

  lemma ExtAfter(c: Component, start: nat, pad: Component, rest: seq<Component>)
    requires c.ty.ExtInt? && !c.padding && start % 8 == 0 && Room(c.ty) % 8 == 0
    requires pad.padding && pad.ty.ExtInt? && c.ty.width + pad.ty.width == Room(c.ty)
    ensures After(PositionAt(start), c, [pad] + rest) == PositionAt(start + Room(c.ty))
  {}

  lemma WholeAfter(c: Component, start: nat, rest: seq<Component>)
    requires !IsBits(c.ty) && !c.ty.ExtInt? && !c.padding && start % 8 == 0 && Room(c.ty) % 8 == 0
    ensures After(PositionAt(start), c, rest) == PositionAt(start + Room(c.ty))
  {}

  // The next multiple of eight bits on the way to a multiple of bytes changes nothing.
  lemma UpTwice(at: nat, a: nat)
    requires a > 0
    ensures Up(Up(at, 8), a * 8) == Up(at, a * 8)
  {
    var r := Up(at, a * 8);
    UpIsLeast(at, 8);
    UpIsLeast(at, a * 8);
    Multiple(a, 8);
    DividesThrough(r, a * 8, 8);
    assert Up(at, 8) <= r;
    UpUnique(Up(at, 8), a * 8, r);
  }

  // The pad that ends a run of bit-fields, if one is missing.
  lemma PlaceBitPad(bits: nat, i: nat, rest: seq<Component>, at: nat, index: nat) returns (index': nat)
    requires at % 8 == bits % 8 && Aligned(BitPadBefore(bits, i) + rest)
    ensures Aligned(rest)
    ensures var r, left := PlacePass(BitPadBefore(bits, i) + rest, PositionAt(at), index),
          PlacePass(rest, PositionAt(Up(at, 8)), index');
      && Placements(r, at) == Placements(left, Up(at, 8))
      && at + SumBits(r) == Up(at, 8) + SumBits(left)
      && PlaceEnd(BitPadBefore(bits, i) + rest, PositionAt(at)) == PlaceEnd(rest, PositionAt(Up(at, 8)))
  {
    hide Placements, SumBits, PlacePass, PlaceEnd, Up;
    BitPadFills(at, bits);
    if bits % BYTE != 0 {
      var pad := BitPadOf(bits, i);
      PlaceBits(pad, rest, at, index);
      index' := index + 1;
      BitsSize(pad.ty);
      OffsetsOfPad(pad, PlacePass(rest, PositionAt(Up(at, 8)), index'), at);
    } else {
      assert BitPadBefore(bits, i) + rest == rest;
      index' := index;
    }
  }

  // One component of the struct, with all that the first pass puts around it.
  lemma PlaceAround(c: Component, bits: nat, i: nat, tail: seq<Component>, at: nat, index: nat) returns (index': nat)
    requires WellFormed(c.ty) && !c.padding && WholeMembers([c]) && at % 8 == bits % 8
    requires Aligned(BitHead(c, bits, i) + tail)
    ensures Aligned(tail)
    ensures var start := Start(c, at, false);
      && PlacedBy(BitHead(c, bits, i) + tail, at, index, Placement(c, start), tail, start + Room(c.ty), index')
      && (start + Room(c.ty)) % 8 == RunAfter(c, bits) % 8
  {
    hide Alignment, SizeBits, Placements, SumBits, PlacePass, PlaceEnd, Up, PlacedBy, Aligned;
    if IsBits(c.ty) {
      index' := BitsAround(c, tail, at, index);
      BitsRun(at, bits, c.ty.width);
    } else {
      index' := WholeAround(c, bits, i, tail, at, index);
      WholeRoom(c);
      StartOnByte(c, at);
    }
  }

  lemma BitsAround(c: Component, tail: seq<Component>, at: nat, index: nat) returns (index': nat)
    requires WellFormed(c.ty) && !c.padding && IsBits(c.ty) && Aligned([c] + tail)
    ensures Aligned(tail) && Room(c.ty) == c.ty.width
    ensures PlacedBy([c] + tail, at, index, Placement(c, at), tail, at + c.ty.width, index')
  {
    hide Alignment, SizeBits, Placements, SumBits, PlacePass, PlaceEnd;
    BitsSize(c.ty);
    PlaceBits(c, tail, at, index);
    index' := index + 1;
    OffsetsOfMember(c, PlacePass(tail, PositionAt(at + c.ty.width), index'), at);
  }

  lemma WholeAround(c: Component, bits: nat, i: nat, tail: seq<Component>, at: nat, index: nat) returns (index': nat)
    requires WellFormed(c.ty) && !c.padding && !IsBits(c.ty) && WholeMembers([c]) && at % 8 == bits % 8
    requires Aligned(BitHead(c, bits, i) + tail)
    ensures Aligned(tail)
    ensures var start := Start(c, at, false);
      PlacedBy(BitHead(c, bits, i) + tail, at, index, Placement(c, start), tail, start + Room(c.ty), index')
  {
    hide Alignment, SizeBits, Placements, SumBits, PlacePass, PlaceEnd, Up, Start, Room, ExtPadAfter, Aligned;
    var pre := BitPadBefore(bits, i);
    var k := i + |pre| + 1;
    var whole := [c] + (ExtPadAfter(c, k) + tail);
    assert BitHead(c, bits, i) + tail == pre + whole;
    var middle := PlaceBitPad(bits, i, whole, at, index);
    StartOnByte(c, at);
    index' := PlaceMember(c, k, tail, Up(at, 8), middle);
  }

  // It makes no difference if the run in front of a member is ended first.
  lemma StartOnByte(c: Component, at: nat)
    requires WellFormed(c.ty) && !IsBits(c.ty)
    ensures Start(c, at, false) % 8 == 0 && Up(at, 8) % 8 == 0
    ensures Start(c, Up(at, 8), false) == Start(c, at, false)
  {
    hide Alignment, Up;
    AlignmentPositive(c.ty);
    UpTwice(at, Alignment(c.ty));
    UpIsLeast(at, 8);
    UpIsLeast(at, Alignment(c.ty) * 8);
    Multiple(Alignment(c.ty), 8);
    DividesThrough(Start(c, at, false), Alignment(c.ty) * 8, 8);
  }

  /** Both passes over the rest of a struct put its members where the rule does. */
  lemma {:induction false} BothPasses(cs: seq<Component>, bits: nat, i: nat, at: nat, index: nat)
    requires WellFormedAll(cs) && NoPads(cs) && WholeMembers(cs) && at % 8 == bits % 8
    requires Aligned(BitPass(cs, bits, i))
    ensures var first := BitPass(cs, bits, i); var second := PlacePass(first, PositionAt(at), index);
      && Placements(second, at) == ByRule(cs, at, false)
      && at + SumBits(second) == Up(Ends(cs, at, false), 8)
      && PlaceEnd(first, PositionAt(at)) == PositionAt(Up(Ends(cs, at, false), 8))
    decreases cs
  {
    hide SizeBits, Up, Start, BitPadBefore, BitHead, RunAfter, Placements, SumBits, Room, PlacePass, PlaceEnd;
    hide WellFormedAll, WholeMembers, NoPads;
    if cs == [] {
      PlacesEnd(bits, i, at, index);
    } else {
      var c, next := cs[0], RunAfter(cs[0], bits);
      var head := BitHead(c, bits, i);
      var tail := BitPass(cs[1..], next, i + |head|);
      MemberParts(cs);
      var start := Start(c, at, false);
      var index' := PlaceAround(c, bits, i, tail, at, index);
      BothPasses(cs[1..], next, i + |head|, start + Room(c.ty), index');
    }
  }

  lemma PlacesEnd(bits: nat, i: nat, at: nat, index: nat)
    requires at % 8 == bits % 8 && Aligned(BitPass([], bits, i))
    ensures var first := BitPass([], bits, i); var second := PlacePass(first, PositionAt(at), index);
      Placements(second, at) == [] && at + SumBits(second) == Up(at, 8)
      && PlaceEnd(first, PositionAt(at)) == PositionAt(Up(at, 8))
  {
    hide Up, SizeBits;
    assert BitPadBefore(bits, i) + [] == BitPadBefore(bits, i);
    var index' := PlaceBitPad(bits, i, [], at, index);
  }

  // ---- The layout of a struct --------------------------------------------------------------

  // The largest alignment that the second pass meets, bytes at least, is the members'.
  lemma {:induction false} LargestOfMembers(cs: seq<Component>, bits: nat, i: nat)
    requires NoPads(cs)
    ensures Max(1, LargestPlace(BitPass(cs, bits, i))) == Max(1, MaxAlignment(cs))
  {
    hide Alignment, BitHead, RunAfter;
    if cs == [] {
      BitPadPlace(bits, i);
    } else {
      var head := BitHead(cs[0], bits, i);
      var tail := BitPass(cs[1..], RunAfter(cs[0], bits), i + |head|);
      LargestOfMembers(cs[1..], RunAfter(cs[0], bits), i + |head|);
      LargestOfHead(cs[0], bits, i);
      LargestConcat(head, tail);
    }
  }

  lemma {:induction false} LargestConcat(x: seq<Component>, y: seq<Component>)
    ensures LargestPlace(x + y) == Max(LargestPlace(x), LargestPlace(y))
  {
    hide PlaceAlignment;
    if x == [] {
      assert x + y == y;
    } else {
      assert (x + y)[1..] == x[1..] + y && (x + y)[0] == x[0];
      LargestConcat(x[1..], y);
    }
  }

  lemma BitPadPlace(bits: nat, i: nat)
    ensures LargestPlace(BitPadBefore(bits, i)) <= 1
  {
    var pre := BitPadBefore(bits, i);
    if pre != [] {
      assert pre[1..] == [] && Alignment(Other(PLAIN)) == 1 && Alignment(pre[0].ty) == Alignment(pre[0].ty.under);
    }
  }

  lemma LargestOfOne(c: Component)
    ensures LargestPlace([c]) == if c.padding && c.ty.ExtInt? then 0 else PlaceAlignment(c)
  {
    hide PlaceAlignment;
    assert [c][1..] == [];
  }

  lemma LargestOfHead(c: Component, bits: nat, i: nat)
    requires !c.padding
    ensures Max(1, LargestPlace(BitHead(c, bits, i))) == Max(1, Alignment(c.ty))
  {
    hide Alignment, LargestPlace;
    LargestOfOne(c);
    if !IsBits(c.ty) {
      var pre := BitPadBefore(bits, i);
      var post := ExtPadAfter(c, i + |pre| + 1);
      BitPadPlace(bits, i);
      LargestConcat(pre + [c], post);
      LargestConcat(pre, [c]);
      if post != [] {
        LargestOfOne(post[0]);
        assert post == [post[0]];
      } else {
        LargestOfNone();
      }
    }
  }

  lemma LargestOfNone()
    ensures LargestPlace([]) == 0
  {}

  /** Types as the source text gives them: structs without padding members, arrays of whole bytes. */
  ghost predicate Unpadded(t: Type) {
    match t
    case Array(_, _, _) => SizeBits(t) % 8 == 0
    case Struct(comps, _) => NoPads(comps) && forall c <- comps :: c.ty < c && Unpadded(c.ty)
    case _ => true
  }

  /** Both passes and the rounding, for members whose own types are padded. */
  lemma PadStructByRule(cs: seq<Component>, attr: Attr)
    requires WellFormedAll(cs) && NoPads(cs) && WholeMembers(cs)
    ensures Aligned(BitPass(cs, 0, 0))
    ensures var r, dense := PadStruct(cs, attr), attr.packed && attr.align.None?;
      && Placements(r, 0) == ByRule(cs, 0, dense)
      && SumBits(r) == Up(Ends(cs, 0, dense), if dense then 8 else Max(1, Max(MaxAlignment(cs), Given(attr))) * 8)
  {
    hide SizeBits, Up, Placements, SumBits, PlacePass, PlaceEnd, LargestPlace;
    PadStructWellFormed(cs, attr);
    if attr.packed && attr.align.None? {
      DensePass(cs, 0, 0, 0);
    } else {
      var first, at := BitPass(cs, 0, 0), Ends(cs, 0, false);
      var second := PlacePass(first, Position(0, 0), 0);
      BothPasses(cs, 0, 0, 0, 0);
      LargestOfMembers(cs, 0, 0);
      UpIsLeast(at, 8);
      EndByRule(second, at, Max(LargestPlace(first), Given(attr)));
    }
  }

  // The pad at the end rounds the size up.
  lemma EndByRule(second: seq<Component>, at: nat, a: nat)
    requires SumBits(second) == Up(at, 8) && Up(at, 8) % 8 == 0
    ensures var r := second + EndPad(PositionAt(Up(at, 8)).offset, a, |second|);
      Placements(r, 0) == Placements(second, 0) && SumBits(r) == Up(at, Max(1, a) * 8)
  {
    hide SizeBits, Up, Placements, SumBits;
    var whole, m := Up(at, 8), Max(1, a);
    var end := EndPad(PositionAt(whole).offset, a, |second|);
    GapToStart(whole, m);
    UpTwice(at, m);
    OffsetsConcat(second, end, 0);
    SumConcat(second, end);
    if end != [] {
      assert SizeBits(end[0].ty) == end[0].ty.bytes * 8 by { PadBits(end[0].ty); }
      OffsetsOfOne(end[0], whole);
      assert end == [end[0]];
    } else {
      NoOffsets(whole);
      assert m == 1 ==> (whole / 8) % m == 0;
    }
  }

  lemma PadBits(t: Type)
    requires t.Scalar?
    ensures SizeBits(t) == t.bytes * 8
  {}

  lemma NoOffsets(at: nat)
    ensures Placements([], at) == [] && SumBits([]) == 0
  {}

  /** Padded types take whole bytes. */
  lemma {:induction false} PaddedIsWhole(t: Type)
    requires WellFormed(t) && Unpadded(t) && !t.BitField? && !t.ExtInt?
    ensures SizeBits(PadType(t)) % 8 == 0
    decreases t
  {
    match t
    case Struct(comps, attr) =>
      var inner := PadTypes(comps);
      InnerIsWhole(comps);
      PadStructByRule(inner, attr);
      var dense := attr.packed && attr.align.None?;
      var unit := if dense then 1 else Max(1, Max(MaxAlignment(inner), Given(attr)));
      var end := Ends(inner, 0, dense);
      UpIsLeast(end, unit * 8);
      Multiple(unit, 8);
      DividesThrough(Up(end, unit * 8), unit * 8, 8);
      assert SizeBits(PadType(t)) == SumBits(PadStruct(inner, attr));
    case Union(comps, attr) => PadUnionWholeBytes(comps, attr);
    case _ =>
  }

  lemma {:induction false} InnerIsWhole(comps: seq<Component>)
    requires WellFormedAll(comps) && NoPads(comps) && forall c <- comps :: c.ty < c && Unpadded(c.ty)
    ensures WholeMembers(PadTypes(comps)) && NoPads(PadTypes(comps))
    decreases comps
  {
    hide SizeBits;
    PadTypesNoPads(comps);
    forall c | c in PadTypes(comps) && !c.ty.BitField? && !c.ty.ExtInt? ensures SizeBits(c.ty) % 8 == 0 {
      var k :| 0 <= k < |comps| && PadTypes(comps)[k] == c;
      PadTypesAt(comps, k);
      assert comps[k] in comps && comps[k].ty < comps[k];
      PaddedIsWhole(comps[k].ty);
    }
  }

  /** The layout of every padded struct, ExtInts and packed ones included: its members, in their order
      and with their padded types, start where the rule puts them, and its size is where the last one
      ends, rounded up to the largest alignment among theirs and the given one, or to a byte if it is
      packed densely. */
  lemma LayoutByRule(comps: seq<Component>, attr: Attr)
    requires WellFormed(Struct(comps, attr)) && Unpadded(Struct(comps, attr))
    ensures var r, inner := PadType(Struct(comps, attr)).comps, PadTypes(comps);
      var dense := attr.packed && attr.align.None?;
      && Placements(r, 0) == ByRule(inner, 0, dense)
      && SumBits(r) == Up(Ends(inner, 0, dense), if dense then 8 else Max(1, Max(MaxAlignment(inner), Given(attr))) * 8)
  {
    InnerIsWhole(comps);
    PadStructByRule(PadTypes(comps), attr);
  }

  /** Unless the struct is packed densely, the rule puts the k-th member on a multiple of its alignment,
      but for bit-fields that take bits; those with none are aligned as well. */
  lemma {:induction false} RuleAligns(cs: seq<Component>, end: nat, k: nat)
    requires WellFormedAll(cs) && k < |cs|
    ensures var at := ByRule(cs, end, false)[k];
      && at.member == cs[k] && Alignment(cs[k].ty) > 0
      && ((cs[k].ty.BitField? && cs[k].ty.width > 0) || at.start % (Alignment(cs[k].ty) * 8) == 0)
    decreases k
  {
    hide Alignment, Up;
    WellFormedParts(cs);
    assert cs[0] in cs;
    if k > 0 {
      RuleAligns(cs[1..], Start(cs[0], end, false) + Room(cs[0].ty), k - 1);
    } else {
      AlignmentPositive(cs[0].ty);
      UpIsLeast(end, Alignment(cs[0].ty) * 8);
    }
  }

  /** A member that is an array of scalars of n bytes, in any number of dimensions, starts at a multiple
      of n bytes. */
  lemma ArraysStartAligned(comps: seq<Component>, attr: Attr, k: nat, n: nat, counts: seq<nat>)
    requires WellFormed(Struct(comps, attr)) && Unpadded(Struct(comps, attr)) && !(attr.packed && attr.align.None?)
    requires k < |comps| && n > 0 && comps[k].ty == ArrayOf(Scalar(n, PLAIN), counts)
    ensures var at := Placements(PadType(Struct(comps, attr)).comps, 0);
      k < |at| && at[k].member == comps[k] && at[k].start % (n * 8) == 0
  {
    LayoutByRule(comps, attr);
    PadTypesAt(comps, k);
    ArrayAlignment(n, counts);
    RuleAligns(PadTypes(comps), 0, k);
  }

  /** A padded union has its members and at most a pad behind them, and its size is that of the largest
      one, rounded up to its alignment, or to a byte if it is packed. */
  lemma UnionByRule(comps: seq<Component>, attr: Attr)
    requires WellFormed(Union(comps, attr))
    ensures var t, u := PadType(Union(comps, attr)), Union(comps, attr);
      && t.Union? && comps <= t.comps && |t.comps| <= |comps| + 1 && Alignment(u) > 0
      && (|t.comps| > |comps| ==> t.comps[|comps|].padding)
      && SizeBits(t) == Up(MaxBits(comps), if attr.packed then 8 else Alignment(u) * 8)
  {
    hide Alignment, MaxBits;
    var u, unit := Union(comps, attr), UnionUnit(comps, attr);
    PadUnionRounds(comps, attr);
    AlignmentPositive(u);
    RoundUpIsUp(MaxBits(comps), unit);
  }

  lemma RoundUpIsUp(x: nat, unit: nat)
    requires unit > 0
    ensures RoundUp(x, unit) == Up(x, unit)
  {
    DivMod(x, unit);
    if x % unit != 0 {
      GapFills(x, unit);
    }
    UpUnique(x, unit, RoundUp(x, unit));
  }
}
