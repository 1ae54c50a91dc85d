/** The layout that padding produces: offsets, sizes and alignments, and the operands of a
    struct literal that follow the padded component list. */
module LayoutLaws {
  import opened Options
  import opened Powers
  import opened Padding
  import opened PaddingLaws

  // ---- Offsets -----------------------------------------------------------------------------

  /** Components other than bit-fields occupy whole bytes. */
  ghost predicate WholeBytes(cs: seq<Component>) {
    forall c <- cs :: !IsBits(c.ty) ==> SizeBits(c.ty) % BYTE == 0
  }

  function BitsOf(p: Position): nat {
    p.offset * BYTE + p.bits
  }

  lemma AfterBits(p: Position, c: Component)
    requires !c.ty.ExtInt? && (!IsBits(c.ty) ==> SizeBits(c.ty) % BYTE == 0)
    ensures BitsOf(After(p, c, [])) == BitsOf(p) + SizeBits(c.ty)
  {}

  /** In a laid out list the bits in front of a component, counted as its size counts them, are
      a multiple of its alignment. */
  lemma {:induction false} PlacedOffsets(cs: seq<Component>, p: Position, i: nat)
    requires Aligned(cs) && NoExt(cs) && Placed(cs, p) && RunsEnd(cs, p.bits) && p.bits < BYTE
    requires WholeBytes(cs) && i < |cs| && !IsBits(cs[i].ty)
    ensures (BitsOf(p) + SumBits(cs[..i])) % (PlaceAlignment(cs[i]) * BYTE) == 0
  {
    hide Alignment, SizeBits;
    AlignedTail(cs);
    if i == 0 {
      OffsetInBits(p.offset, PlaceAlignment(cs[0]));
      assert p.bits == 0;
    } else {
      var q := After(p, cs[0], cs[1..]);
      assert q == After(p, cs[0], []) && cs[0] in cs;
      AfterBits(p, cs[0]);
      assert NoExt(cs[1..]) && WholeBytes(cs[1..]);
      PlacedOffsets(cs[1..], q, i - 1);
      assert cs[1..][i - 1] == cs[i];
      SumPrefix(cs, i);
    }
  }

  lemma SumPrefix(cs: seq<Component>, i: nat)
    requires 0 < i <= |cs|
    ensures SumBits(cs[..i]) == SizeBits(cs[0].ty) + SumBits(cs[1..][..i - 1])
  {
    assert cs[..i][1..] == cs[1..][..i - 1];
  }

  lemma OffsetInBits(offset: nat, a: nat)
    requires a > 0 && offset % a == 0
    ensures a * BYTE > 0 && (offset * BYTE) % (a * BYTE) == 0
  {
    DivMod(offset, a);
    assert offset * BYTE == (offset / a) * (a * BYTE);
    Multiple(offset / a, a * BYTE);
  }

  /** The size of a laid out list is where its placement ends. */
  lemma {:induction false} PlacedSize(cs: seq<Component>, p: Position)
    requires Aligned(cs) && NoExt(cs) && Placed(cs, p) && WholeBytes(cs)
    ensures BitsOf(PlaceEnd(cs, p)) == BitsOf(p) + SumBits(cs)
  {
    hide Alignment, SizeBits;
    if cs != [] {
      AlignedTail(cs);
      assert NoExt(cs[1..]) && WholeBytes(cs[1..]) && cs[0] in cs;
      assert After(p, cs[0], cs[1..]) == After(p, cs[0], []);
      AfterBits(p, cs[0]);
      PlacedSize(cs[1..], After(p, cs[0], cs[1..]));
    }
  }

  /** A list whose bit-field runs end on byte boundaries has a size in whole bytes. */
  lemma {:induction false} RunsEndWhole(cs: seq<Component>, bits: nat)
    requires RunsEnd(cs, bits) && WholeBytes(cs)
    ensures (bits + SumBits(cs)) % BYTE == 0
  {
    hide SizeBits;
    if cs != [] {
      assert WholeBytes(cs[1..]) && cs[0] in cs;
      if IsBits(cs[0].ty) {
        RunsEndWhole(cs[1..], (bits + cs[0].ty.width) % BYTE);
        BitsSize(cs[0].ty);
        ModuloByte(bits + cs[0].ty.width, SumBits(cs[1..]));
      } else {
        RunsEndWhole(cs[1..], 0);
        WholeSum(bits, SizeBits(cs[0].ty), SumBits(cs[1..]));
      }
    }
  }

  lemma BitsSize(t: Type)
    requires IsBits(t)
    ensures SizeBits(t) == t.width
  {}

  lemma WholeSum(x: nat, y: nat, z: nat)
    requires x % BYTE == 0 && y % BYTE == 0 && z % BYTE == 0
    ensures (x + (y + z)) % BYTE == 0
  {}

  // ---- What the passes insert --------------------------------------------------------------

  /** A pad that takes up bits, or whole bytes fewer than m. */
  predicate SmallPad(c: Component, m: nat) {
    c.padding && ((IsBits(c.ty) && c.ty.under == Other(PLAIN) && c.ty.attr == PLAIN)
                  || (c.ty.Scalar? && c.ty.bytes < m && c.ty.attr == PLAIN))
  }

  lemma {:induction false} BitPassInserts(cs: seq<Component>, bits: nat, index: nat, m: nat)
    requires NoExt(cs)
    ensures forall c <- BitPass(cs, bits, index) :: c in cs || SmallPad(c, m)
    ensures forall c <- cs :: c in BitPass(cs, bits, index)
  {
    if cs == [] {
      assert forall c <- BitPadBefore(bits, index) :: SmallPad(c, m);
    } else {
      var head := BitHead(cs[0], bits, index);
      var rest := BitPass(cs[1..], RunAfter(cs[0], bits), index + |head|);
      BitPassInserts(cs[1..], RunAfter(cs[0], bits), index + |head|, m);
      BitHeadInserts(cs[0], bits, index, m);
      InsertedInFront(cs, head, rest, m);
    }
  }

  lemma BitHeadInserts(c: Component, bits: nat, index: nat, m: nat)
    requires !c.ty.ExtInt?
    ensures c in BitHead(c, bits, index)
    ensures forall d <- BitHead(c, bits, index) :: d == c || SmallPad(d, m)
  {
    var pre := BitPadBefore(bits, index);
    assert forall d <- pre :: SmallPad(d, m);
    if !IsBits(c.ty) {
      assert BitHead(c, bits, index) == pre + [c];
    }
  }

  lemma InsertedInFront(cs: seq<Component>, head: seq<Component>, rest: seq<Component>, m: nat)
    requires cs != [] && cs[0] in head
    requires forall d <- head :: d == cs[0] || SmallPad(d, m)
    requires forall c <- rest :: c in cs[1..] || SmallPad(c, m)
    requires forall c <- cs[1..] :: c in rest
    ensures forall c <- head + rest :: c in cs || SmallPad(c, m)
    ensures forall c <- cs :: c in head + rest
  {
    assert cs == [cs[0]] + cs[1..];
  }

  lemma {:induction false} PlacePassInserts(cs: seq<Component>, p: Position, index: nat, m: nat)
    requires Aligned(cs) && LargestPlace(cs) <= m && NoExt(cs)
    ensures forall c <- PlacePass(cs, p, index) :: c in cs || SmallPad(c, m)
    ensures forall c <- cs :: c in PlacePass(cs, p, index)
  {
    hide Alignment, PlaceHead, PlaceAfter;
    if cs != [] {
      AlignedTail(cs);
      assert NoExt(cs[1..]);
      var head, q := PlaceHead(p, cs[0], index), PlaceAfter(p, cs[0], cs[1..]);
      PlacePassInserts(cs[1..], q, index + |head|, m);
      PlaceHeadInserts(p, cs[0], index, m);
      InsertedInFront(cs, head, PlacePass(cs[1..], q, index + |head|), m);
    }
  }

  lemma PlaceHeadInserts(p: Position, c: Component, index: nat, m: nat)
    requires 0 < PlaceAlignment(c) <= m
    ensures c in PlaceHead(p, c, index)
    ensures forall d <- PlaceHead(p, c, index) :: d == c || SmallPad(d, m)
  {
    hide Alignment;
    assert Gap(p, c) < m;
  }

  /** Padding a struct keeps its components and inserts only pads smaller than the largest
      alignment. */
  lemma PadStructInserts(cs: seq<Component>, attr: Attr)
    requires WellFormedAll(cs) && NoExt(cs)
    ensures Aligned(BitPass(cs, 0, 0))
    ensures var m := Max(LargestPlace(BitPass(cs, 0, 0)), Given(attr));
      forall c <- PadStruct(cs, attr) :: c in cs || SmallPad(c, m)
    ensures forall c <- cs :: c in PadStruct(cs, attr)
  {
    var first, start := BitPass(cs, 0, 0), Position(0, 0);
    var m := Max(LargestPlace(first), Given(attr));
    PadStructWellFormed(cs, attr);
    BitPassNoExt(cs, 0, 0);
    BitPassInserts(cs, 0, 0, m);
    PlacePassInserts(first, start, 0, m);
    var second := PlacePass(first, start, 0);
    var end := EndPad(PlaceEnd(first, start).offset, m, |second|);
    assert forall c <- end :: SmallPad(c, m);
  }

  // ---- The layout theorem ------------------------------------------------------------------

  /** No ExtInt members, and arrays of whole bytes. */
  ghost predicate Sound(t: Type) {
    match t
    case ExtInt(_, _) => false
    case Array(_, _, _) => SizeBits(t) % BYTE == 0
    case Struct(comps, _) => SoundAll(comps)
    case _ => true
  }

  ghost predicate SoundAll(cs: seq<Component>) {
    forall c <- cs :: c.ty < c && Sound(c.ty)
  }

  lemma {:induction false} SoundNoExt(cs: seq<Component>)
    requires WellFormedAll(cs) && SoundAll(cs)
    ensures NoExt(PadTypes(cs))
  {
    forall k | 0 <= k < |cs| ensures !PadTypes(cs)[k].ty.ExtInt? {
      PadTypesAt(cs, k);
      assert cs[k] in cs;
    }
  }

  /** Padded types occupy whole bytes. */
  lemma {:induction false} PaddedWholeBytes(t: Type)
    requires WellFormed(t) && Sound(t) && !IsBits(t)
    ensures SizeBits(PadType(t)) % BYTE == 0
    decreases t
  {
    match t
    case Struct(comps, attr) =>
      InnerWholeBytes(comps);
      SoundNoExt(comps);
      PadStructWholeBytes(PadTypes(comps), attr);
    case Union(comps, attr) =>
      PadUnionWholeBytes(comps, attr);
    case _ =>
  }

  lemma InsertedWhole(cs: seq<Component>, r: seq<Component>, m: nat)
    requires WholeBytes(cs) && forall c <- r :: c in cs || SmallPad(c, m)
    ensures WholeBytes(r)
  {
    hide SizeBits;
    forall c | c in r && !IsBits(c.ty) ensures SizeBits(c.ty) % BYTE == 0 {
      if c !in cs {
        SmallPadSize(c, m);
      }
    }
  }

  lemma SmallPadSize(c: Component, m: nat)
    requires SmallPad(c, m) && !IsBits(c.ty)
    ensures SizeBits(c.ty) % BYTE == 0
  {}

  lemma PadStructWholeBytes(cs: seq<Component>, attr: Attr)
    requires WellFormedAll(cs) && NoExt(cs) && WholeBytes(cs)
    ensures Aligned(BitPass(cs, 0, 0)) && SumBits(PadStruct(cs, attr)) % BYTE == 0
  {
    hide SizeBits, Alignment, PadStruct;
    StructRunsEnd(cs, attr);
    PadStructInserts(cs, attr);
    InsertedWhole(cs, PadStruct(cs, attr), Max(LargestPlace(BitPass(cs, 0, 0)), Given(attr)));
    RunsEndWhole(PadStruct(cs, attr), 0);
  }

  lemma PadUnionWholeBytes(cs: seq<Component>, attr: Attr)
    requires WellFormedAll(cs)
    ensures UnionUnit(cs, attr) > 0 && MaxBits(PadUnion(cs, attr)) % BYTE == 0
  {
    hide UnionUnit, MaxBits;
    PadUnionRounds(cs, attr);
    var r := PadUnion(cs, attr);
    UnionUnitInBytes(r, attr);
    DividesThrough(MaxBits(r), UnionUnit(r, attr), BYTE);
  }

  lemma {:induction false} InnerWholeBytes(comps: seq<Component>)
    requires WellFormedAll(comps) && SoundAll(comps)
    ensures WholeBytes(PadTypes(comps))
    decreases comps
  {
    hide SizeBits;
    forall c | c in PadTypes(comps) && !IsBits(c.ty) ensures SizeBits(c.ty) % BYTE == 0 {
      var k :| 0 <= k < |comps| && PadTypes(comps)[k] == c;
      PadTypesAt(comps, k);
      assert comps[k] in comps && comps[k].ty < comps[k];
      PaddedWholeBytes(comps[k].ty);
    }
  }

  lemma DividesThrough(x: nat, y: nat, z: nat)
    requires y > 0 && z > 0 && x % y == 0 && y % z == 0
    ensures x % z == 0
  {
    DivMod(x, y);
    DivMod(y, z);
    assert x == ((x / y) * (y / z)) * z;
    Multiple((x / y) * (y / z), z);
  }

  lemma StructRunsEnd(cs: seq<Component>, attr: Attr)
    requires WellFormedAll(cs) && NoExt(cs)
    ensures Aligned(BitPass(cs, 0, 0)) && RunsEnd(PadStruct(cs, attr), 0)
  {
    PadStructWellFormed(cs, attr);
    BitPassEnds(cs, 0, 0);
    if !(attr.packed && attr.align.None?) {
      var end, largest := PadStructLaysOut(cs, attr);
    }
  }

  /** After padding a struct that is not packed, every member starts at a multiple of its alignment
      unless it is a bit-field with bits, every run of those ends on a byte boundary, and the whole
      struct is made of whole bytes. */
  lemma StructLayout(comps: seq<Component>, attr: Attr)
    requires WellFormed(Struct(comps, attr)) && Sound(Struct(comps, attr)) && !attr.packed
    ensures var r := PadType(Struct(comps, attr)).comps;
      && (forall i :: 0 <= i < |r| && !(r[i].ty.BitField? && r[i].ty.width > 0) && !r[i].padding ==>
            Alignment(r[i].ty) > 0 && SumBits(r[..i]) % (Alignment(r[i].ty) * BYTE) == 0)
      && (forall i :: 0 <= i < |r| && !(r[i].ty.BitField? && r[i].ty.width > 0) ==> SumBits(r[..i]) % BYTE == 0)
      && SumBits(r) % BYTE == 0
  {
    hide SizeBits, Alignment, SumBits, LaidOut, PadStruct;
    var inner := PadTypes(comps);
    InnerWholeBytes(comps);
    SoundNoExt(comps);
    var end, largest := PadStructLaysOut(inner, attr);
    PadStructInserts(inner, attr);
    var r := PadStruct(inner, attr);
    InsertedWhole(inner, r, Max(LargestPlace(BitPass(inner, 0, 0)), Given(attr)));
    LaidOutOffsets(r, end, largest);
  }

  lemma LaidOutOffsets(r: seq<Component>, end: Position, largest: nat)
    requires LaidOut(r, Position(0, 0), end, largest) && WholeBytes(r)
    ensures forall i :: 0 <= i < |r| && !IsBits(r[i].ty) && !r[i].padding ==>
      Alignment(r[i].ty) > 0 && SumBits(r[..i]) % (Alignment(r[i].ty) * BYTE) == 0
    ensures forall i :: 0 <= i < |r| && !IsBits(r[i].ty) ==> SumBits(r[..i]) % BYTE == 0
    ensures SumBits(r) % BYTE == 0
  {
    hide SizeBits, Alignment, SumBits;
    RunsEndWhole(r, 0);
    forall i | 0 <= i < |r| && !IsBits(r[i].ty)
      ensures SumBits(r[..i]) % BYTE == 0
      ensures !r[i].padding ==> Alignment(r[i].ty) > 0 && SumBits(r[..i]) % (Alignment(r[i].ty) * BYTE) == 0
    {
      OffsetOf(r, i);
    }
  }

  lemma OffsetOf(r: seq<Component>, i: nat)
    requires Aligned(r) && NoExt(r) && Placed(r, Position(0, 0)) && RunsEnd(r, 0) && WholeBytes(r)
    requires i < |r| && !IsBits(r[i].ty)
    ensures SumBits(r[..i]) % BYTE == 0
    ensures !r[i].padding ==> Alignment(r[i].ty) > 0 && SumBits(r[..i]) % (Alignment(r[i].ty) * BYTE) == 0
  {
    hide SizeBits, Alignment, SumBits;
    var a := PlaceAlignment(r[i]);
    PlacedOffsets(r, Position(0, 0), i);
    Multiple(a, BYTE);
    DividesThrough(SumBits(r[..i]), a * BYTE, BYTE);
  }

  // ---- Sizes and alignments ----------------------------------------------------------------

  predicate NoPads(cs: seq<Component>) {
    forall k :: 0 <= k < |cs| ==> !cs[k].padding
  }

  lemma {:induction false} MaxAlignmentMember(cs: seq<Component>)
    ensures forall c <- cs :: Alignment(c.ty) <= MaxAlignment(cs)
  {
    hide Alignment;
    if cs != [] {
      MaxAlignmentMember(cs[1..]);
      assert cs == [cs[0]] + cs[1..];
    }
  }

  lemma {:induction false} MaxAlignmentBound(cs: seq<Component>, m: nat)
    requires forall c <- cs :: Alignment(c.ty) <= m
    ensures MaxAlignment(cs) <= m
  {
    hide Alignment;
    if cs != [] {
      assert cs[0] in cs;
      MaxAlignmentBound(cs[1..], m);
    }
  }

  /** The largest alignment that the second pass meets is the members' largest. */
  lemma {:induction false} LargestIsMax(cs: seq<Component>, m: nat)
    requires forall c <- cs :: !c.ty.ExtInt? && PlaceAlignment(c) <= m
    requires m == 0 || exists c <- cs :: PlaceAlignment(c) == m
    ensures LargestPlace(cs) == m
  {
    hide Alignment, PlaceAlignment;
    if cs != [] {
      assert cs == [cs[0]] + cs[1..] && cs[0] in cs;
      if PlaceAlignment(cs[0]) == m {
        LargestBound(cs[1..], m);
      } else {
        LargestIsMax(cs[1..], m);
      }
    }
  }

  lemma {:induction false} LargestBound(cs: seq<Component>, m: nat)
    requires forall c <- cs :: PlaceAlignment(c) <= m
    ensures LargestPlace(cs) <= m
  {
    hide Alignment, PlaceAlignment;
    if cs != [] {
      assert cs[0] in cs;
      LargestBound(cs[1..], m);
    }
  }

  lemma {:induction false} MaxAlignmentReached(cs: seq<Component>)
    requires cs != []
    ensures exists c <- cs :: Alignment(c.ty) == MaxAlignment(cs)
  {
    hide Alignment;
    assert cs == [cs[0]] + cs[1..] && cs[0] in cs;
    if cs[1..] != [] {
      MaxAlignmentReached(cs[1..]);
      var c :| c in cs[1..] && Alignment(c.ty) == MaxAlignment(cs[1..]);
      assert c in cs;
    } else {
      assert MaxAlignment(cs[1..]) == 0;
    }
  }

  /** For components that are all real members, the second pass meets their largest alignment,
      and the padded list has no larger one. */
  lemma MembersDecide(cs: seq<Component>, attr: Attr)
    requires WellFormedAll(cs) && NoExt(cs) && NoPads(cs) && Given(attr) == 0
    ensures Aligned(BitPass(cs, 0, 0))
    ensures LargestPlace(BitPass(cs, 0, 0)) == MaxAlignment(cs)
    ensures MaxAlignment(PadStruct(cs, attr)) == MaxAlignment(cs)
  {
    FirstPassLargest(cs, attr);
    if cs != [] {
      PadStructInserts(cs, attr);
      MaxAlignmentMember(cs);
      var r, m := PadStruct(cs, attr), MaxAlignment(cs);
      AlignmentPositive(cs[0].ty);
      forall c <- r ensures Alignment(c.ty) <= m {
        if c !in cs {
          SmallPadAlignment(c, m);
        }
      }
      MaxAlignmentBound(r, m);
      MaxAlignmentMember(r);
      MaxAlignmentBound(cs, MaxAlignment(r));
    }
  }

  lemma SmallPadAlignment(c: Component, m: nat)
    requires SmallPad(c, m) && m > 0
    ensures Alignment(c.ty) <= m
  {
    if c.ty.BitField? {
      assert Alignment(Other(PLAIN)) == 1;
      assert Alignment(c.ty) == Alignment(c.ty.under);
    }
  }

  lemma FirstPassLargest(cs: seq<Component>, attr: Attr)
    requires WellFormedAll(cs) && NoExt(cs) && NoPads(cs)
    ensures Aligned(BitPass(cs, 0, 0))
    ensures LargestPlace(BitPass(cs, 0, 0)) == MaxAlignment(cs)
    ensures cs == [] ==> PadStruct(cs, attr) == []
  {
    PadStructWellFormed(cs, attr);
    if cs != [] {
      var first := BitPass(cs, 0, 0);
      BitPassNoExt(cs, 0, 0);
      BitPassInserts(cs, 0, 0, 0);
      MaxAlignmentMember(cs);
      MaxAlignmentReached(cs);
      AlignmentPositive(cs[0].ty);
      FirstPassBound(cs, first, MaxAlignment(cs));
      LargestIsMax(first, MaxAlignment(cs));
    }
  }

  lemma FirstPassBound(cs: seq<Component>, first: seq<Component>, m: nat)
    requires NoPads(cs) && NoExt(first) && m > 0
    requires forall c <- first :: c in cs || SmallPad(c, 0)
    requires forall c <- cs :: c in first && Alignment(c.ty) <= m
    requires exists c <- cs :: Alignment(c.ty) == m
    ensures forall c <- first :: !c.ty.ExtInt? && PlaceAlignment(c) <= m
    ensures exists c <- first :: PlaceAlignment(c) == m
  {
    hide Alignment;
    forall c <- first ensures !c.ty.ExtInt? && PlaceAlignment(c) <= m {
      if c !in cs {
        SmallPadAlignmentOne(c);
      } else {
        MemberPlace(c, cs);
      }
    }
    var c :| c in cs && Alignment(c.ty) == m;
    MemberPlace(c, cs);
  }

  lemma SmallPadAlignmentOne(c: Component)
    requires SmallPad(c, 0)
    ensures PlaceAlignment(c) == 1
  {
    assert Alignment(Other(PLAIN)) == 1;
    assert Alignment(c.ty) == Alignment(c.ty.under);
  }

  lemma MemberPlace(c: Component, cs: seq<Component>)
    requires c in cs && NoPads(cs)
    ensures PlaceAlignment(c) == Alignment(c.ty)
  {}

  lemma {:induction false} PadTypesNoPads(cs: seq<Component>)
    requires WellFormedAll(cs) && NoPads(cs)
    ensures NoPads(PadTypes(cs))
  {
    forall k | 0 <= k < |cs| ensures !PadTypes(cs)[k].padding {
      PadTypesAt(cs, k);
    }
  }

  // ---- Struct literals ---------------------------------------------------------------------

  datatype Operand = Initialiser(value: int) | Zero(ty: Type)

  /** The operands that belong to real members. */
  function MemberOperands(comps: seq<Component>, ops: seq<Operand>): seq<Operand>
    requires |comps| == |ops|
  {
    if comps == [] then []
    else (if comps[0].padding then [] else [ops[0]]) + MemberOperands(comps[1..], ops[1..])
  }

  function MemberCount(comps: seq<Component>): nat {
    if comps == [] then 0 else (if comps[0].padding then 0 else 1) + MemberCount(comps[1..])
  }

  /** The literal of a struct that has been padded: a zero operand is inserted for every pad, so
      that afterwards there is one operand for each component, in order. */
  method InsertPadOperands(comps: seq<Component>, ops: seq<Operand>) returns (r: seq<Operand>)
    requires |ops| == MemberCount(comps)
    ensures |r| == |comps|
    ensures MemberOperands(comps, r) == ops
    ensures forall k :: 0 <= k < |comps| && comps[k].padding ==> r[k] == Zero(comps[k].ty)
  {
    r := ops;
    var i := 0;
    assert comps[0..] == comps && r[0..] == r;
    assert comps[..0] == [] && r[..0] == [] && MemberOperands([], []) == [];
    hide MemberOperands;
    while i < |comps|
      invariant 0 <= i <= |comps| && i <= |r|
      invariant |r| - i == MemberCount(comps[i..])
      invariant MemberOperands(comps[..i], r[..i]) + r[i..] == ops
      invariant forall k :: 0 <= k < i && comps[k].padding ==> r[k] == Zero(comps[k].ty)
    {
      ghost var head, tail := r[..i], r[i..];
      assert comps[i..][1..] == comps[i + 1..];
      if comps[i].padding {
        r := r[..i] + [Zero(comps[i].ty)] + r[i..];
      }
      assert comps[..i + 1] == comps[..i] + [comps[i]] && r[..i + 1] == head + [r[i]];
      MemberOperandsSnoc(comps[..i], head, comps[i], r[i]);
      MoveOver(MemberOperands(comps[..i], head), tail, r[i], r[i + 1..], comps[i].padding);
      i := i + 1;
    }
    assert comps[..i] == comps && r[..i] == r;
  }

  // A pad's operand is new, a member's is the next of the tail.
  lemma MoveOver(done: seq<Operand>, tail: seq<Operand>, op: Operand, left: seq<Operand>, padding: bool)
    requires if padding then left == tail else tail == [op] + left
    ensures (done + if padding then [] else [op]) + left == done + tail
  {}

  lemma {:induction false} MemberOperandsSnoc(comps: seq<Component>, ops: seq<Operand>, c: Component, op: Operand)
    requires |comps| == |ops|
    ensures MemberOperands(comps + [c], ops + [op])
            == MemberOperands(comps, ops) + if c.padding then [] else [op]
  {
    if comps == [] {
      assert comps + [c] == [c] && ops + [op] == [op] && [c][1..] == [] && [op][1..] == [];
    } else {
      assert (comps + [c])[1..] == comps[1..] + [c] && (ops + [op])[1..] == ops[1..] + [op];
      MemberOperandsSnoc(comps[1..], ops[1..], c, op);
    }
  }
}
