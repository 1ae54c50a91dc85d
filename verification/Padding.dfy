/** Struct and union padding (padding.cpp): alignment, the pass that ends bit-field runs on byte
    boundaries, the pass that aligns members and rounds the size, and unions. Component lists
    are values that the passes edit by insertion; each pass is also a function of its list,
    and the laws are proved of those functions. */
module Padding {
  import opened Options
  import opened Powers

  /** The number of bits in a byte (`config.ansi_c.char_width`). */
  const BYTE: nat := 8

  /** What a type may carry in any of its forms: an alignment given in the source, trusted
      blindly, and packing. */
  datatype Attr = Attr(align: Option<nat>, packed: bool)

  const PLAIN: Attr := Attr(None, false)

  /** A member's name, or the kind and index of a pad. */
  datatype Name = Member(id: nat) | BitPad(index: nat) | ExtPad(index: nat) | Pad(index: nat) | UnionPad

  datatype Type =
    | Scalar(bytes: nat, attr: Attr)
    | BitField(width: nat, under: Type, attr: Attr)
    | ExtInt(width: nat, attr: Attr)
    | Array(elem: Type, count: nat, attr: Attr)
    | Struct(comps: seq<Component>, attr: Attr)
    | Union(comps: seq<Component>, attr: Attr)
    | Other(attr: Attr)

  datatype Component = Component(name: Name, ty: Type, padding: bool)

  function Max(x: nat, y: nat): nat {
    if x < y then y else x
  }

  /** The bytes of the smallest integer type, of a power of two bytes, that holds an ExtInt. */
  function ReprBytes(bits: nat, result: nat): (r: nat)
    requires result >= 1
    ensures r >= result && bits <= r * BYTE
    decreases bits - result * BYTE
  {
    if bits > result * BYTE then ReprBytes(bits, result * 2) else result
  }

  /** Sizes in bits (type_byte_size.cpp): a struct is the sum of its components, a union the
      largest. */
  function SizeBits(t: Type): nat {
    match t
    case Scalar(bytes, _) => bytes * BYTE
    case BitField(width, _, _) => width
    case ExtInt(width, _) => width
    case Array(elem, count, _) => SizeBits(elem) * count
    case Struct(comps, _) => SumBits(comps)
    case Union(comps, _) => MaxBits(comps)
    case Other(_) => 0
  }

  function SumBits(cs: seq<Component>): nat {
    if cs == [] then 0 else
      assert cs[0].ty < cs[0];
      SizeBits(cs[0].ty) + SumBits(cs[1..])
  }

  function MaxBits(cs: seq<Component>): nat {
    if cs == [] then 0 else
      assert cs[0].ty < cs[0];
      Max(SizeBits(cs[0].ty), MaxBits(cs[1..]))
  }

  function ByteSize(t: Type): nat {
    (SizeBits(t) + 7) / 8
  }

  /** The alignment given in the source; zero if there is none. */
  function Given(attr: Attr): nat {
    if attr.align.Some? then attr.align.value else 0
  }

  function Alignment(t: Type): nat {
    var given := Given(t.attr);
    if given > 0 && !t.attr.packed then given
    else if given == 0 && t.attr.packed then 1
    else
      var result := match t
        case Array(elem, _, _) => Alignment(elem)
        case Struct(comps, _) => Max(1, MaxAlignment(comps))
        case Union(comps, _) => Max(1, MaxAlignment(comps))
        case BitField(_, under, _) => Alignment(under)
        case ExtInt(width, _) => ReprBytes(width, 1)
        case Scalar(bytes, _) => bytes
        case Other(_) => 1;
      if given > 0 && given < result then given else result
  }

  function MaxAlignment(cs: seq<Component>): nat {
    if cs == [] then 0 else
      assert cs[0].ty < cs[0];
      Max(Alignment(cs[0].ty), MaxAlignment(cs[1..]))
  }

  /** A bit-field that takes up bits; one of width zero only forces alignment. */
  predicate IsBits(t: Type) {
    t.BitField? && t.width != 0
  }

  function BitPadOf(bits: nat, index: nat): Component {
    Component(BitPad(index), BitField(BYTE - bits % BYTE, Other(PLAIN), PLAIN), true)
  }

  function ExtPadOf(width: nat, index: nat): Component {
    var repr := ReprBytes(width, 1) * BYTE;
    Component(ExtPad(index), ExtInt(if width % repr != 0 then repr - width % repr else 0, PLAIN), true)
  }

  function PadOf(bytes: nat, index: nat): Component {
    Component(Pad(index), Scalar(bytes, PLAIN), true)
  }

  // ---- First pass: bit-field runs end on byte boundaries -----------------------------------

  function BitPadBefore(bits: nat, index: nat): seq<Component> {
    if bits % BYTE != 0 then [BitPadOf(bits, index)] else []
  }

  function ExtPadAfter(c: Component, index: nat): seq<Component> {
    if c.ty.ExtInt? then [ExtPadOf(c.ty.width, index)] else []
  }

  /** What the first pass makes of one component: itself, with a pad in front that ends the
      bit-field run and a pad behind that fills up an ExtInt. */
  function BitHead(c: Component, bits: nat, index: nat): seq<Component> {
    if IsBits(c.ty) then [c]
    else
      var pre := BitPadBefore(bits, index);
      pre + [c] + ExtPadAfter(c, index + |pre| + 1)
  }

  function RunAfter(c: Component, bits: nat): nat {
    if IsBits(c.ty) then bits + c.ty.width else 0
  }

  /** The rest of the first pass, with `bits` bits of a bit-field run seen and `index`
      components in front. */
  function BitPass(cs: seq<Component>, bits: nat, index: nat): seq<Component> {
    if cs == [] then BitPadBefore(bits, index)
    else
      var head := BitHead(cs[0], bits, index);
      head + BitPass(cs[1..], RunAfter(cs[0], bits), index + |head|)
  }

  // ---- Second pass: members on multiples of their alignment --------------------------------

  /** How far the second pass has come: whole bytes, and bits of the next one. */
  datatype Position = Position(offset: nat, bits: nat)

  /** The alignment a component is placed on: a pad is no member of the structure. */
  function PlaceAlignment(c: Component): nat {
    if c.padding && !c.ty.BitField? then 1 else Alignment(c.ty)
  }

  // The ExtInt pad that follows an ExtInt counts towards its size.
  function ExtPadWidth(next: seq<Component>): nat {
    if next != [] && next[0].padding && next[0].ty.ExtInt? then next[0].ty.width else 0
  }

  /** The position after a component that is followed by `next`. */
  function After(p: Position, c: Component, next: seq<Component>): Position {
    if IsBits(c.ty) then Position(p.offset + (p.bits + c.ty.width) / BYTE, (p.bits + c.ty.width) % BYTE)
    else if c.padding && c.ty.ExtInt? then p
    else if c.ty.ExtInt? then p.(offset := p.offset + (c.ty.width + ExtPadWidth(next)) / BYTE)
    else p.(offset := p.offset + ByteSize(c.ty))
  }

  /** Bit-fields are packed, and ExtInt pads belong to the member in front of them. */
  predicate NeedsPlace(c: Component) {
    !IsBits(c.ty) && !(c.padding && c.ty.ExtInt?)
  }

  /** The bytes missing in front of a component. */
  function Gap(p: Position, c: Component): nat
    requires PlaceAlignment(c) > 0
  {
    if NeedsPlace(c) && p.offset % PlaceAlignment(c) != 0 then PlaceAlignment(c) - p.offset % PlaceAlignment(c) else 0
  }

  /** Alignments that can be divided by: what the assertion on line 280 asks for. */
  predicate Aligned(cs: seq<Component>) {
    forall k :: 0 <= k < |cs| ==> PlaceAlignment(cs[k]) > 0
  }

  function PlaceHead(p: Position, c: Component, index: nat): seq<Component>
    requires PlaceAlignment(c) > 0
  {
    var gap := Gap(p, c);
    if gap != 0 then [PadOf(gap, index), c] else [c]
  }

  /** The position after a component has been placed. */
  function PlaceAfter(p: Position, c: Component, next: seq<Component>): Position
    requires PlaceAlignment(c) > 0
  {
    After(p.(offset := p.offset + Gap(p, c)), c, next)
  }

  /** The rest of the second pass, from a position and with `index` components in front. */
  function PlacePass(cs: seq<Component>, p: Position, index: nat): seq<Component>
    requires Aligned(cs)
  {
    if cs == [] then []
    else
      AlignedTail(cs);
      var head := PlaceHead(p, cs[0], index);
      head + PlacePass(cs[1..], PlaceAfter(p, cs[0], cs[1..]), index + |head|)
  }

  lemma AlignedTail(cs: seq<Component>)
    requires cs != [] && Aligned(cs)
    ensures Aligned(cs[1..]) && PlaceAlignment(cs[0]) > 0
  {
    assert forall k :: 0 <= k < |cs[1..]| ==> cs[1..][k] == cs[k + 1];
  }

  /** Where the second pass ends. */
  function PlaceEnd(cs: seq<Component>, p: Position): Position
    requires Aligned(cs)
  {
    if cs == [] then p
    else
      AlignedTail(cs);
      PlaceEnd(cs[1..], PlaceAfter(p, cs[0], cs[1..]))
  }

  /** The largest alignment the second pass meets. */
  function LargestPlace(cs: seq<Component>): nat {
    if cs == [] then 0
    else if cs[0].padding && cs[0].ty.ExtInt? then LargestPlace(cs[1..])
    else Max(PlaceAlignment(cs[0]), LargestPlace(cs[1..]))
  }

  /** The pad that rounds a size up to a multiple of an alignment. */
  function EndPad(offset: nat, alignment: nat, index: nat): seq<Component> {
    if alignment > 1 && offset % alignment != 0 then [PadOf(alignment - offset % alignment, index)] else []
  }

  /** Both passes and the final rounding, for components whose own types are padded already. */
  function PadStruct(cs: seq<Component>, attr: Attr): seq<Component>
    requires Aligned(BitPass(cs, 0, 0))
  {
    var first := BitPass(cs, 0, 0);
    if attr.packed && attr.align.None? then first
    else
      var second := PlacePass(first, Position(0, 0), 0);
      second + EndPad(PlaceEnd(first, Position(0, 0)).offset, Max(LargestPlace(first), Given(attr)), |second|)
  }

  // ---- Unions ------------------------------------------------------------------------------

  function UnionUnit(cs: seq<Component>, attr: Attr): nat {
    if attr.packed then BYTE else Alignment(Union(cs, attr)) * BYTE
  }

  function RoundUp(size: nat, unit: nat): nat
    requires unit > 0
  {
    if size % unit != 0 then size + (unit - size % unit) else size
  }

  function PadUnion(cs: seq<Component>, attr: Attr): seq<Component>
    requires UnionUnit(cs, attr) > 0
  {
    var size, unit := MaxBits(cs), UnionUnit(cs, attr);
    if size % unit != 0 then cs + [Component(UnionPad, Scalar(RoundUp(size, unit) / BYTE, PLAIN), true)] else cs
  }

  // ---- Whole types -------------------------------------------------------------------------

  /** What the code may be called on: scalars have a size, and components flagged as padding
      are of the kinds that it inserts. */
  ghost predicate WellFormed(t: Type) {
    match t
    case Scalar(bytes, _) => bytes > 0
    case BitField(_, under, _) => WellFormed(under)
    case ExtInt(_, _) => true
    case Array(elem, _, _) => WellFormed(elem)
    case Struct(comps, _) => WellFormedAll(comps)
    case Union(comps, _) => WellFormedAll(comps)
    case Other(_) => true
  }

  ghost predicate WellFormedAll(cs: seq<Component>) {
    forall c <- cs :: c.ty < c && WellFormed(c.ty) && (c.padding ==> c.ty.Scalar? || c.ty.BitField? || c.ty.ExtInt?)
  }

  lemma {:induction false} AlignmentPositive(t: Type)
    requires WellFormed(t)
    ensures Alignment(t) > 0
  {
    match t
    case BitField(_, under, _) => AlignmentPositive(under);
    case Array(elem, _, _) => AlignmentPositive(elem);
    case _ =>
  }

  lemma WellFormedAligned(cs: seq<Component>)
    requires WellFormedAll(cs)
    ensures Aligned(cs)
  {
    forall k | 0 <= k < |cs| ensures PlaceAlignment(cs[k]) > 0 {
      AlignmentPositive(cs[k].ty);
    }
  }

  /** Every component inserted or kept is well formed. */
  lemma {:induction false} BitPassWellFormed(cs: seq<Component>, bits: nat, index: nat)
    requires WellFormedAll(cs)
    ensures WellFormedAll(BitPass(cs, bits, index))
  {
    hide WellFormedAll, BitHead, BitPadBefore;
    if cs == [] {
      BitPadWellFormed(bits, index);
    } else {
      WellFormedParts(cs);
      BitHeadWellFormed(cs[0], bits, index);
      var head := BitHead(cs[0], bits, index);
      BitPassWellFormed(cs[1..], RunAfter(cs[0], bits), index + |head|);
      WellFormedConcat(head, BitPass(cs[1..], RunAfter(cs[0], bits), index + |head|));
    }
  }

  lemma BitPadWellFormed(bits: nat, index: nat)
    ensures WellFormedAll(BitPadBefore(bits, index))
  {}

  lemma BitHeadWellFormed(c: Component, bits: nat, index: nat)
    requires WellFormedAll([c])
    ensures WellFormedAll(BitHead(c, bits, index))
  {
    assert c in [c];
  }

  lemma WellFormedParts(cs: seq<Component>)
    requires cs != [] && WellFormedAll(cs)
    ensures WellFormedAll([cs[0]]) && WellFormedAll(cs[1..])
  {}

  lemma WellFormedConcat(xs: seq<Component>, ys: seq<Component>)
    requires WellFormedAll(xs) && WellFormedAll(ys)
    ensures WellFormedAll(xs + ys)
  {}

  lemma {:induction false} PlacePassWellFormed(cs: seq<Component>, p: Position, index: nat)
    requires WellFormedAll(cs) && Aligned(cs)
    ensures WellFormedAll(PlacePass(cs, p, index))
  {
    if cs != [] {
      AlignedTail(cs);
      var head := PlaceHead(p, cs[0], index);
      assert WellFormedAll(head);
      PlacePassWellFormed(cs[1..], PlaceAfter(p, cs[0], cs[1..]), index + |head|);
    }
  }

  lemma PadStructWellFormed(cs: seq<Component>, attr: Attr)
    requires WellFormedAll(cs)
    ensures Aligned(BitPass(cs, 0, 0)) && WellFormedAll(PadStruct(cs, attr))
  {
    BitPassWellFormed(cs, 0, 0);
    WellFormedAligned(BitPass(cs, 0, 0));
    PlacePassWellFormed(BitPass(cs, 0, 0), Position(0, 0), 0);
  }

  lemma PadUnionWellFormed(cs: seq<Component>, attr: Attr)
    requires WellFormedAll(cs)
    ensures UnionUnit(cs, attr) > 0 && WellFormedAll(PadUnion(cs, attr))
  {
    AlignmentPositive(Union(cs, attr));
    var size, unit := MaxBits(cs), UnionUnit(cs, attr);
    if size % unit != 0 {
      RoundUpBytes(size, unit);
    }
  }

  lemma RoundUpBytes(size: nat, unit: nat)
    requires unit > 0 && unit % BYTE == 0
    ensures RoundUp(size, unit) % unit == 0 && RoundUp(size, unit) % BYTE == 0
    ensures size > 0 ==> RoundUp(size, unit) >= unit
    ensures RoundUp(size, unit) >= size
    ensures size % unit != 0 ==> RoundUp(size, unit) / BYTE > 0
  {
    DivMod(size, unit);
    var q := if size % unit != 0 then size / unit + 1 else size / unit;
    assert RoundUp(size, unit) == q * unit by {
      assert (size / unit + 1) * unit == (size / unit) * unit + unit;
    }
    Multiple(q, unit);
    MultipleOfBytes(q, unit / BYTE, RoundUp(size, unit));
    if q >= 1 {
      MulAtLeast(unit, 1, q);
    }
  }

  lemma Multiple(q: nat, unit: nat)
    requires unit > 0
    ensures (q * unit) % unit == 0
  {
    DivUnique(q * unit, unit, q, 0);
  }

  lemma MultipleOfBytes(q: nat, k: nat, size: nat)
    requires size == q * (k * BYTE)
    ensures size % BYTE == 0
  {
    assert size == (q * k) * BYTE;
    Multiple(q * k, BYTE);
  }

  /** Padding of a whole type: the types of a struct's components first, then the struct. */
  ghost function PadType(t: Type): (r: Type)
    requires WellFormed(t)
    ensures WellFormed(r)
    decreases t, 0
  {
    match t
    case Struct(comps, attr) =>
      var inner := PadTypes(comps);
      PadStructWellFormed(inner, attr);
      Struct(PadStruct(inner, attr), attr)
    case Union(comps, attr) =>
      PadUnionWellFormed(comps, attr);
      Union(PadUnion(comps, attr), attr)
    case _ => t
  }

  ghost function PadTypes(cs: seq<Component>): (r: seq<Component>)
    requires WellFormedAll(cs)
    ensures WellFormedAll(r) && |r| == |cs|
    decreases cs, 1
  {
    if cs == [] then [] else
      assert cs[0].ty < cs[0];
      [cs[0].(ty := PadType(cs[0].ty))] + PadTypes(cs[1..])
  }

  // ---- The passes as the code runs them ----------------------------------------------------

  method InsertAt(cs: seq<Component>, at: nat, c: Component) returns (r: seq<Component>)
    requires at <= |cs|
    ensures r == cs[..at] + [c] + cs[at..]
    ensures |r| == |cs| + 1 && r[..at] == cs[..at] && r[at] == c && r[at + 1..] == cs[at..]
  {
    r := cs[..at] + [c] + cs[at..];
  }

  /** The first pass, inserting into the list that it walks. */
  method EndBitFieldRuns(comps: seq<Component>) returns (cs: seq<Component>)
    ensures cs == BitPass(comps, 0, 0)
  {
    hide BitHead, RunAfter;
    cs := comps;
    var bits: nat := 0;
    var it: nat := 0;
    assert cs[..0] == [] && cs[0..] == comps;
    while it < |cs|
      invariant 0 <= it <= |cs|
      invariant BitPass(comps, 0, 0) == cs[..it] + BitPass(cs[it..], bits, it)
      decreases |cs| - it
    {
      ghost var rest, was := cs[it..], cs[..it];
      BitPassStep(was, rest, bits);
      cs, it, bits := EndRunAt(cs, it, bits);
    }
    assert cs[..it] == cs && cs[it..] == [];
    if bits % BYTE != 0 {
      cs := InsertAt(cs, |cs|, BitPadOf(bits, |cs|));
    }
  }

  /** The body of the first pass: one component, with the pads it calls for. */
  method EndRunAt(cs0: seq<Component>, it0: nat, bits0: nat) returns (cs: seq<Component>, it: nat, bits: nat)
    requires it0 < |cs0|
    ensures it <= |cs| && |cs| - it == |cs0| - it0 - 1
    ensures cs[..it] == cs0[..it0] + BitHead(cs0[it0], bits0, it0) && cs[it..] == cs0[it0..][1..]
    ensures bits == RunAfter(cs0[it0], bits0)
  {
    cs, it, bits := cs0, it0, bits0;
    if IsBits(cs[it].ty) {
      bits := bits + cs[it].ty.width;
    } else {
      if bits % BYTE != 0 {
        cs := InsertAt(cs, it, BitPadOf(bits, it));
        it := it + 1;
      }
      bits := 0;
      assert cs[it] == cs0[it0];
      if cs[it].ty.ExtInt? {
        cs := InsertAt(cs, it + 1, ExtPadOf(cs[it].ty.width, it + 1));
        it := it + 1;
      }
    }
    it := it + 1;
  }

  // One round of the first pass: the head of the rest, padded, joins what is done.
  lemma BitPassStep(was: seq<Component>, rest: seq<Component>, run: nat)
    requires rest != []
    ensures var head := BitHead(rest[0], run, |was|);
      was + BitPass(rest, run, |was|) == (was + head) + BitPass(rest[1..], RunAfter(rest[0], run), |was + head|)
  {
    hide BitHead, RunAfter;
    var head := BitHead(rest[0], run, |was|);
    Associative(was, head, BitPass(rest[1..], RunAfter(rest[0], run), |was| + |head|));
  }

  lemma Associative(x: seq<Component>, y: seq<Component>, z: seq<Component>)
    ensures x + (y + z) == (x + y) + z
  {}

  lemma PlaceStep(was: seq<Component>, rest: seq<Component>, p: Position)
    requires rest != [] && Aligned(rest)
    ensures Aligned(rest[1..]) && PlaceAlignment(rest[0]) > 0
    ensures var head := PlaceHead(p, rest[0], |was|); var q := PlaceAfter(p, rest[0], rest[1..]);
      && was + PlacePass(rest, p, |was|) == (was + head) + PlacePass(rest[1..], q, |was + head|)
      && PlaceEnd(rest, p) == PlaceEnd(rest[1..], q)
  {
    hide PlaceHead, PlaceAfter, PlaceAlignment, Alignment;
    AlignedTail(rest);
    var head := PlaceHead(p, rest[0], |was|);
    Associative(was, head, PlacePass(rest[1..], PlaceAfter(p, rest[0], rest[1..]), |was| + |head|));
  }

  /** The second pass, with the rounding of the size; `first` is what the first pass left. The
      assertions in the loop are those of the source. */
  method PlaceMembers(first: seq<Component>, attr: Attr) returns (cs: seq<Component>)
    requires WellFormedAll(first) && Aligned(first) && RunsEnd(first, 0)
    ensures var second := PlacePass(first, Position(0, 0), 0);
      cs == second + EndPad(PlaceEnd(first, Position(0, 0)).offset, Max(LargestPlace(first), Given(attr)), |second|)
  {
    cs := first;
    var p := Position(0, 0);
    var max: nat := 0;
    var it: nat := 0;
    assert cs[..0] == [] && cs[0..] == first;
    while it < |cs|
      invariant 0 <= it <= |cs| && p.bits < BYTE
      invariant Aligned(cs[it..]) && RunsEnd(cs[it..], p.bits)
      invariant PlacePass(first, Position(0, 0), 0) == cs[..it] + PlacePass(cs[it..], p, it)
      invariant PlaceEnd(first, Position(0, 0)) == PlaceEnd(cs[it..], p)
      invariant LargestPlace(first) == Max(max, LargestPlace(cs[it..]))
      decreases |cs| - it
    {
      ghost var rest, was := cs[it..], cs[..it];
      PlaceStep(was, rest, p);
      cs, it, p, max := PlaceOne(cs, it, p, max);
    }
    assert cs[..it] == cs && cs[it..] == [];
    max := Max(max, Given(attr));
    if max > 1 && p.offset % max != 0 {
      cs := InsertAt(cs, |cs|, PadOf(max - p.offset % max, |cs|));
    }
  }

  /** The body of the second pass: one component, and a pad in front of it where it needs one. */
  method PlaceOne(cs0: seq<Component>, it0: nat, p0: Position, max0: nat)
    returns (cs: seq<Component>, it: nat, p: Position, max: nat)
    requires it0 < |cs0| && p0.bits < BYTE && Aligned(cs0[it0..]) && RunsEnd(cs0[it0..], p0.bits)
    ensures PlaceAlignment(cs0[it0]) > 0
    ensures it <= |cs| && |cs| - it == |cs0| - it0 - 1
    ensures cs[..it] == cs0[..it0] + PlaceHead(p0, cs0[it0], it0) && cs[it..] == cs0[it0..][1..]
    ensures p == PlaceAfter(p0, cs0[it0], cs0[it0..][1..]) && p.bits < BYTE
    ensures Max(max, LargestPlace(cs[it..])) == Max(max0, LargestPlace(cs0[it0..]))
    ensures RunsEnd(cs[it..], p.bits)
  {
    ghost var rest := cs0[it0..];
    AlignedTail(rest);
    cs, it, p, max := cs0, it0, p0, max0;
    var c := cs[it];
    assert c == rest[0];
    if IsBits(c.ty) {
      max := Max(max, Alignment(c.ty));
      var bits := p.bits + c.ty.width;
      p := Position(p.offset + bits / BYTE, bits % BYTE);
    } else if c.padding && c.ty.ExtInt? {
      assert p.bits == 0;
    } else {
      var a := PlaceAlignment(c);
      assert p.bits == 0 && a > 0;
      max := Max(max, a);
      if a != 1 && p.offset % a != 0 {
        var bytes := a - p.offset % a;
        cs := InsertAt(cs, it, PadOf(bytes, it));
        it := it + 1;
        p := p.(offset := p.offset + bytes);
      }
      if c.ty.ExtInt? {
        p := p.(offset := p.offset + (c.ty.width + ExtPadWidth(cs[it + 1..])) / BYTE);
      } else {
        p := p.(offset := p.offset + ByteSize(c.ty));
      }
    }
    it := it + 1;
    assert cs[it..] == rest[1..];
  }

  /** Every bit-field run in the list, after `bits` bits, ends on a byte boundary. */
  ghost predicate RunsEnd(cs: seq<Component>, bits: nat) {
    if cs == [] then bits % BYTE == 0
    else if IsBits(cs[0].ty) then RunsEnd(cs[1..], (bits + cs[0].ty.width) % BYTE)
    else bits % BYTE == 0 && RunsEnd(cs[1..], 0)
  }

  /** add_padding on any type. */
  method AddPadding(t: Type) returns (r: Type)
    requires WellFormed(t)
    ensures r == PadType(t)
    decreases t, 0
  {
    match t
    case Struct(comps, attr) =>
      var cs := AddPaddingStruct(comps, attr);
      r := Struct(cs, attr);
    case Union(comps, attr) =>
      var cs := AddPaddingUnion(comps, attr);
      r := Union(cs, attr);
    case _ =>
      r := t;
  }

  method AddPaddingStruct(comps: seq<Component>, attr: Attr) returns (cs: seq<Component>)
    requires WellFormedAll(comps)
    ensures WellFormedAll(PadTypes(comps)) && Aligned(BitPass(PadTypes(comps), 0, 0))
    ensures cs == PadStruct(PadTypes(comps), attr)
    decreases comps, 1
  {
    cs := comps;
    var i := 0;
    assert PadTypes(comps[..0]) == [];
    while i < |comps|
      invariant 0 <= i <= |comps| == |cs|
      invariant cs[..i] == PadTypes(comps)[..i] && cs[i..] == comps[i..]
    {
      assert cs[i] == comps[i] && comps[i].ty < comps[i];
      PadTypesAt(comps, i);
      var ty := AddPadding(comps[i].ty);
      cs := cs[i := comps[i].(ty := ty)];
      i := i + 1;
    }
    assert cs == PadTypes(comps);
    PadStructWellFormed(cs, attr);
    BitPassEnds(cs, 0, 0);
    BitPassWellFormed(cs, 0, 0);
    cs := EndBitFieldRuns(cs);
    if attr.packed && attr.align.None? {
      return;
    }
    cs := PlaceMembers(cs, attr);
  }

  lemma {:induction false} PadTypesAt(cs: seq<Component>, i: nat)
    requires WellFormedAll(cs) && i < |cs|
    ensures PadTypes(cs)[i] == cs[i].(ty := PadType(cs[i].ty))
    decreases |cs|
  {
    if i > 0 {
      PadTypesAt(cs[1..], i - 1);
      assert cs[1..][i - 1] == cs[i];
    }
  }

  /** The first pass does what it is for: no run is left inside a byte. */
  lemma {:induction false} BitPassEnds(cs: seq<Component>, bits: nat, index: nat)
    ensures RunsEnd(BitPass(cs, bits, index), bits % BYTE)
  {
    if cs == [] {
      PadEndsRun(bits, index, []);
      assert BitPadBefore(bits, index) + [] == BitPadBefore(bits, index);
    } else {
      var head := BitHead(cs[0], bits, index);
      var rest := BitPass(cs[1..], RunAfter(cs[0], bits), index + |head|);
      BitPassEnds(cs[1..], RunAfter(cs[0], bits), index + |head|);
      HeadEndsRun(cs[0], bits, index, rest);
    }
  }

  lemma HeadEndsRun(c: Component, bits: nat, index: nat, rest: seq<Component>)
    requires RunsEnd(rest, RunAfter(c, bits) % BYTE)
    ensures RunsEnd(BitHead(c, bits, index) + rest, bits % BYTE)
  {
    hide BitPadBefore, ExtPadAfter, RunsEnd;
    if IsBits(c.ty) {
      BitsContinueRun(c, bits, rest);
    } else {
      var pre := BitPadBefore(bits, index);
      var post := ExtPadAfter(c, index + |pre| + 1);
      ExtPadIsNoBits(c, index + |pre| + 1);
      WholeHeadEnds(c, post, rest);
      PadEndsRun(bits, index, [c] + post + rest);
      assert pre + [c] + post + rest == pre + ([c] + post + rest);
    }
  }

  lemma BitsContinueRun(c: Component, bits: nat, rest: seq<Component>)
    requires IsBits(c.ty) && RunsEnd(rest, (bits + c.ty.width) % BYTE)
    ensures RunsEnd([c] + rest, bits % BYTE)
  {
    assert ([c] + rest)[1..] == rest;
    ModuloByte(bits, c.ty.width);
  }

  lemma ModuloByte(x: nat, y: nat)
    ensures (x % BYTE + y) % BYTE == (x + y) % BYTE
  {}

  lemma ExtPadIsNoBits(c: Component, index: nat)
    ensures var post := ExtPadAfter(c, index); post == [] || (|post| == 1 && !IsBits(post[0].ty))
  {}

  lemma WholeHeadEnds(c: Component, post: seq<Component>, rest: seq<Component>)
    requires RunsEnd(rest, 0) && !IsBits(c.ty)
    requires post == [] || (|post| == 1 && !IsBits(post[0].ty))
    ensures RunsEnd([c] + post + rest, 0)
  {
    assert ([c] + post + rest)[1..] == post + rest;
    if post == [] {
      assert post + rest == rest;
    } else {
      assert (post + rest)[1..] == rest;
    }
  }

  lemma PadEndsRun(bits: nat, index: nat, rest: seq<Component>)
    requires RunsEnd(rest, 0)
    ensures RunsEnd(BitPadBefore(bits, index) + rest, bits % BYTE)
  {
    var pre := BitPadBefore(bits, index);
    if pre == [] {
      assert pre + rest == rest;
    } else {
      assert (pre + rest)[1..] == rest;
    }
  }

  method AddPaddingUnion(comps: seq<Component>, attr: Attr) returns (cs: seq<Component>)
    requires WellFormedAll(comps)
    ensures UnionUnit(comps, attr) > 0 && cs == PadUnion(comps, attr)
  {
    PadUnionWellFormed(comps, attr);
    var unit := Alignment(Union(comps, attr)) * BYTE;
    var size := 0;
    var i := 0;
    while i < |comps|
      invariant 0 <= i <= |comps| && 0 <= size
      invariant MaxBits(comps) == Max(size, MaxBits(comps[i..]))
    {
      assert comps[i..][1..] == comps[i + 1..];
      size := Max(size, SizeBits(comps[i].ty));
      i := i + 1;
    }
    if attr.packed {
      unit := BYTE;
    }
    cs := comps;
    if size % unit != 0 {
      var padding := unit - size % unit;
      cs := cs + [Component(UnionPad, Scalar((size + padding) / BYTE, PLAIN), true)];
    }
  }
}
