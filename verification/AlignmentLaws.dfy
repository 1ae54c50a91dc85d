/** Sizes and alignments of padded types: when the assertion on the size that follows padding
    holds, and when padding changes the alignment of a type. */
module AlignmentLaws {
  import opened Options
  import opened Powers
  import opened Padding
  import opened PaddingLaws
  import opened LayoutLaws

  /** Once the types of the members are padded, the pads of a struct do not change its alignment,
      although they count as members. */
  lemma AlignmentUnchanged(comps: seq<Component>, attr: Attr)
    requires WellFormed(Struct(comps, attr)) && Sound(Struct(comps, attr)) && !attr.packed && NoPads(comps)
    ensures Alignment(PadType(Struct(comps, attr))) == Alignment(Struct(PadTypes(comps), attr))
  {
    var inner := PadTypes(comps);
    PadStructWellFormed(inner, attr);
    AlignmentOfStruct(inner, attr);
    AlignmentOfStruct(PadStruct(inner, attr), attr);
    assert PadType(Struct(comps, attr)) == Struct(PadStruct(inner, attr), attr);
    if Given(attr) == 0 {
      PadTypesNoPads(comps);
      SoundNoExt(comps);
      MembersDecide(inner, attr);
    }
  }

  lemma AlignmentOfStruct(cs: seq<Component>, attr: Attr)
    requires !attr.packed
    ensures Alignment(Struct(cs, attr)) == if Given(attr) > 0 then Given(attr) else Max(1, MaxAlignment(cs))
  {}

  // ---- The size of a struct ----------------------------------------------------------------

  lemma SizeOfStruct(cs: seq<Component>, attr: Attr)
    ensures SizeBits(Struct(cs, attr)) == SumBits(cs)
  {}

  // The padded struct's size in bytes.
  lemma StructEnd(cs: seq<Component>, attr: Attr) returns (offset: nat)
    requires WellFormedAll(cs) && NoExt(cs) && NoPads(cs) && WholeBytes(cs) && !attr.packed
    ensures Aligned(BitPass(cs, 0, 0)) && SumBits(PadStruct(cs, attr)) == offset * BYTE
    ensures offset == RoundUp(PlaceEnd(BitPass(cs, 0, 0), Position(0, 0)).offset,
                              Max(1, Max(MaxAlignment(cs), Given(attr))))
  {
    hide SizeBits, Alignment, SumBits, PadStruct;
    var end, largest := PadStructLaysOut(cs, attr);
    PadStructInserts(cs, attr);
    InsertedWhole(cs, PadStruct(cs, attr), Max(LargestPlace(BitPass(cs, 0, 0)), Given(attr)));
    FirstPassLargest(cs, attr);
    PlacedSize(PadStruct(cs, attr), Position(0, 0));
    offset := end.offset;
  }

  /** The size is a multiple of the alignment: what adjust_type asserts of a padded type. */
  ghost predicate SizeFits(t: Type)
    requires WellFormed(t)
  {
    Alignment(PadType(t)) > 0 && SizeBits(PadType(t)) % (Alignment(PadType(t)) * BYTE) == 0
  }

  /** Where the last member of a struct ends, in bytes, once the types of the members are padded. */
  ghost function MembersEnd(comps: seq<Component>): nat
    requires WellFormedAll(comps)
  {
    PadStructWellFormed(PadTypes(comps), PLAIN);
    PlaceEnd(BitPass(PadTypes(comps), 0, 0), Position(0, 0)).offset
  }

  /** A padded struct is as large as its members, rounded up to the largest alignment among theirs
      and the given one. */
  lemma PaddedStructSize(comps: seq<Component>, attr: Attr)
    requires WellFormed(Struct(comps, attr)) && Sound(Struct(comps, attr)) && !attr.packed && NoPads(comps)
    ensures var largest := Max(MaxAlignment(PadTypes(comps)), Given(attr));
      SizeBits(PadType(Struct(comps, attr))) == RoundUp(MembersEnd(comps), Max(1, largest)) * BYTE
  {
    hide Alignment, SizeBits, PadStruct, SumBits;
    var inner := PadTypes(comps);
    PadTypesNoPads(comps);
    SoundNoExt(comps);
    InnerWholeBytes(comps);
    var offset := StructEnd(inner, attr);
    SizeOfStruct(PadStruct(inner, attr), attr);
  }

  /** A given alignment agrees with the members': there is none, or it is not below theirs, or it
      divides theirs. */
  predicate GivenFits(given: nat, members: nat) {
    given == 0 || given >= members || members % given == 0
  }

  /** The size of a padded struct is a multiple of its alignment exactly if a given alignment
      agrees with its members', or happens to divide the size that they have rounded up to their
      own alignment. */
  lemma StructSize(comps: seq<Component>, attr: Attr)
    requires WellFormed(Struct(comps, attr)) && Sound(Struct(comps, attr)) && !attr.packed && NoPads(comps)
    ensures var given, members := Given(attr), MaxAlignment(PadTypes(comps));
      SizeFits(Struct(comps, attr)) <==>
        GivenFits(given, members) || RoundUp(MembersEnd(comps), members) % given == 0
  {
    hide Alignment, SizeBits;
    var inner := PadTypes(comps);
    var given, members, end := Given(attr), MaxAlignment(inner), MembersEnd(comps);
    PaddedStructSize(comps, attr);
    AlignmentUnchanged(comps, attr);
    AlignmentOfStruct(inner, attr);
    var m := Max(1, Max(members, given));
    var a := if given > 0 then given else Max(1, members);
    RoundUpMultiple(end, m);
    BitsMultiple(RoundUp(end, m), a);
    if GivenFits(given, members) && a != m {
      DividesThrough(RoundUp(end, m), m, a);
    }
  }

  lemma BitsMultiple(size: nat, a: nat)
    requires a > 0
    ensures a * BYTE > 0 && ((size * BYTE) % (a * BYTE) == 0 <==> size % a == 0)
  {
    QuotRem(size, a);
    var q, r := Quot(size, a), Rem(size, a);
    assert size * BYTE == q * (a * BYTE) + r * BYTE;
    DivUnique(size * BYTE, a * BYTE, q, r * BYTE);
    DivUnique(size, a, q, r);
  }

  lemma RoundUpMultiple(size: nat, unit: nat)
    requires unit > 0
    ensures RoundUp(size, unit) % unit == 0
  {
    if size % unit != 0 {
      GapFills(size, unit);
    }
  }

  /** The structs of one given alignment and one alignment of the padded members. */
  ghost predicate HasAlignments(comps: seq<Component>, attr: Attr, given: nat, members: nat) {
    && WellFormed(Struct(comps, attr)) && Sound(Struct(comps, attr)) && !attr.packed && NoPads(comps)
    && Given(attr) == given && MaxAlignment(PadTypes(comps)) == members
  }

  /** Agreement is what decides: all structs of two alignments have a size that is a multiple of
      their alignment exactly if the two agree. */
  lemma GivenFitsExactly(given: nat, members: nat)
    requires members > 0
    ensures GivenFits(given, members) <==>
      forall comps, attr :: HasAlignments(comps, attr, given, members) ==> SizeFits(Struct(comps, attr))
  {
    if GivenFits(given, members) {
      forall comps, attr | HasAlignments(comps, attr, given, members)
        ensures SizeFits(Struct(comps, attr))
      {
        StructSize(comps, attr);
      }
    } else {
      GivenFails(given, members);
      var c, attr := Component(Member(0), Scalar(members, PLAIN), false), Attr(Some(given), false);
      assert HasAlignments([c], attr, given, members) && !SizeFits(Struct([c], attr));
    }
  }

  /** A given alignment below a scalar's that does not divide it defeats the rounding. */
  lemma GivenFails(given: nat, members: nat)
    requires members > 0 && !GivenFits(given, members)
    ensures var c, attr := Component(Member(0), Scalar(members, PLAIN), false), Attr(Some(given), false);
      HasAlignments([c], attr, given, members) && !SizeFits(Struct([c], attr))
  {
    var c, attr := Component(Member(0), Scalar(members, PLAIN), false), Attr(Some(given), false);
    assert c.ty < c && [c][1..] == [];
    OneMember(c);
    Multiple(1, members);
    assert Sound(c.ty) && SoundAll([c]);
    StructSize([c], attr);
  }

  // A member that is no bit-field is all there is to a struct of its own.
  lemma OneMember(c: Component)
    requires WellFormed(c.ty) && !IsBits(c.ty) && !c.ty.ExtInt? && !c.padding
    ensures WellFormedAll([c]) && PadTypes([c]) == [c.(ty := PadType(c.ty))] && NoPads([c])
    ensures MaxAlignment(PadTypes([c])) == Alignment(PadType(c.ty))
    ensures MembersEnd([c]) == ByteSize(PadType(c.ty))
  {
    hide Alignment, SizeBits;
    assert c.ty < c && [c][1..] == [];
    assert PadTypes([c]) == [c.(ty := PadType(c.ty))] + PadTypes([]);
    var d := c.(ty := PadType(c.ty));
    assert [d][1..] == [] && MaxAlignment([]) == 0;
    assert BitHead(d, 0, 0) == [d] && BitPass([d], 0, 0) == [d] + BitPass([], 0, 1) == [d];
    PadStructWellFormed([d], PLAIN);
    assert PlaceEnd([d], Position(0, 0)) == PlaceEnd([], PlaceAfter(Position(0, 0), d, []));
  }

  /** The same for unions that are not packed, without any condition: the unit is the union's
      own alignment, pad included. */
  lemma UnionSize(comps: seq<Component>, attr: Attr)
    requires WellFormed(Union(comps, attr)) && !attr.packed
    ensures var t := PadType(Union(comps, attr));
      Alignment(t) > 0 && SizeBits(t) % (Alignment(t) * BYTE) == 0
  {
    PadUnionRounds(comps, attr);
  }

  // ---- When padding changes an alignment ---------------------------------------------------

  /** The bytes of the member that pads a union. */
  function UnionPadBytes(cs: seq<Component>, attr: Attr): nat
    requires UnionUnit(cs, attr) > 0
  {
    RoundUp(MaxBits(cs), UnionUnit(cs, attr)) / BYTE
  }

  /** Types as the source text gives them: no member is padding, and no struct is packed to an
      explicit alignment. */
  ghost predicate FromSource(t: Type) {
    t.Struct? ==> NoPads(t.comps) && !(t.attr.packed && Given(t.attr) > 0) && AllFromSource(t.comps)
  }

  ghost predicate AllFromSource(cs: seq<Component>) {
    forall c <- cs :: c.ty < c && FromSource(c.ty)
  }

  /** What decides, before padding, whether a type is aligned to at most `a` once it is padded. */
  ghost predicate StaysWithin(t: Type, a: nat)
    requires WellFormed(t)
  {
    match t
    case Struct(comps, attr) =>
      if attr.packed then 1 <= a
      else if Given(attr) > 0 then Given(attr) <= a
      else 1 <= a && AllWithin(comps, a)
    case Union(comps, attr) =>
      PadUnionWellFormed(comps, attr);
      && Alignment(t) <= a
      && (|| MaxBits(comps) % UnionUnit(comps, attr) == 0
          || (Given(attr) == 0) == attr.packed
          || UnionPadBytes(comps, attr) <= a
          || 0 < Given(attr) <= a)
    case _ => Alignment(t) <= a
  }

  ghost predicate AllWithin(cs: seq<Component>, a: nat)
    requires WellFormedAll(cs)
  {
    forall c <- cs :: c.ty < c && StaysWithin(c.ty, a)
  }

  lemma UnionWithin(cs: seq<Component>, attr: Attr, a: nat)
    requires WellFormed(Union(cs, attr))
    ensures Alignment(PadType(Union(cs, attr))) <= a <==> StaysWithin(Union(cs, attr), a)
  {
    PadUnionWellFormed(cs, attr);
    var size, unit := MaxBits(cs), UnionUnit(cs, attr);
    if size % unit != 0 {
      var pad := Component(UnionPad, Scalar(UnionPadBytes(cs, attr), PLAIN), true);
      MaxSnoc(cs, pad);
      assert Alignment(pad.ty) == UnionPadBytes(cs, attr);
      assert PadType(Union(cs, attr)) == Union(cs + [pad], attr);
    }
  }

  /** Padding leaves a type aligned to at most `a` exactly if the type as given says so. */
  lemma {:induction false} PaddedWithin(t: Type, a: nat)
    requires WellFormed(t) && Sound(t) && FromSource(t)
    ensures Alignment(PadType(t)) <= a <==> StaysWithin(t, a)
    decreases t
  {
    match t
    case Struct(comps, attr) =>
      var inner := PadTypes(comps);
      PadStructWellFormed(inner, attr);
      assert PadType(t) == Struct(PadStruct(inner, attr), attr);
      if !attr.packed && Given(attr) == 0 {
        AlignmentUnchanged(comps, attr);
        AlignmentOfStruct(inner, attr);
        MembersWithin(comps, a);
      }
    case Union(comps, attr) => UnionWithin(comps, attr, a);
    case _ =>
  }

  lemma {:induction false} MembersWithin(comps: seq<Component>, a: nat)
    requires WellFormedAll(comps) && SoundAll(comps) && AllFromSource(comps)
    ensures MaxAlignment(PadTypes(comps)) <= a <==> AllWithin(comps, a)
    decreases comps
  {
    hide Alignment, StaysWithin;
    var inner := PadTypes(comps);
    forall k | 0 <= k < |comps|
      ensures Alignment(inner[k].ty) <= a <==> StaysWithin(comps[k].ty, a)
    {
      PadTypesAt(comps, k);
      assert comps[k] in comps && comps[k].ty < comps[k];
      PaddedWithin(comps[k].ty, a);
    }
    MaxAlignmentMember(inner);
    if AllWithin(comps, a) {
      forall c <- inner ensures Alignment(c.ty) <= a {
        var k :| 0 <= k < |inner| && inner[k] == c;
        assert comps[k] in comps;
      }
      MaxAlignmentBound(inner, a);
    } else {
      var c :| c in comps && !(c.ty < c && StaysWithin(c.ty, a));
      var k :| 0 <= k < |comps| && comps[k] == c;
      assert inner[k] in inner;
    }
  }

  /** Padding never lowers an alignment. */
  lemma {:induction false} PaddingNeverLowers(t: Type)
    requires WellFormed(t) && Sound(t) && FromSource(t)
    ensures Alignment(t) <= Alignment(PadType(t))
    decreases t
  {
    match t
    case Struct(comps, attr) =>
      var inner := PadTypes(comps);
      PadStructWellFormed(inner, attr);
      if !attr.packed && Given(attr) == 0 {
        AlignmentUnchanged(comps, attr);
        AlignmentOfStruct(inner, attr);
        MembersNeverLower(comps);
      }
    case Union(comps, attr) =>
      var a := Alignment(PadType(t));
      UnionWithin(comps, attr, a);
    case _ =>
  }

  lemma {:induction false} MembersNeverLower(comps: seq<Component>)
    requires WellFormedAll(comps) && SoundAll(comps) && AllFromSource(comps)
    ensures MaxAlignment(comps) <= MaxAlignment(PadTypes(comps))
    decreases comps
  {
    hide Alignment;
    var inner := PadTypes(comps);
    MaxAlignmentMember(inner);
    forall c <- comps ensures Alignment(c.ty) <= MaxAlignment(inner) {
      var k :| 0 <= k < |comps| && comps[k] == c;
      PadTypesAt(comps, k);
      assert inner[k] in inner;
      PaddingNeverLowers(c.ty);
    }
    MaxAlignmentBound(comps, MaxAlignment(inner));
  }

  /** Padding keeps the alignment of a type exactly if no union in it is rounded up past it. */
  lemma AlignmentKept(t: Type)
    requires WellFormed(t) && Sound(t) && FromSource(t)
    ensures Alignment(PadType(t)) == Alignment(t) <==> StaysWithin(t, Alignment(t))
  {
    PaddedWithin(t, Alignment(t));
    PaddingNeverLowers(t);
  }

  /** Of a union that is not packed: exactly if its alignment is given, or its size is a multiple of
      its alignment, or is not above it. */
  lemma UnionAlignmentKept(cs: seq<Component>, attr: Attr)
    requires WellFormed(Union(cs, attr)) && !attr.packed
    ensures UnionUnit(cs, attr) > 0
    ensures Alignment(PadType(Union(cs, attr))) == Alignment(Union(cs, attr)) <==>
      Given(attr) > 0 || MaxBits(cs) % UnionUnit(cs, attr) == 0 || MaxBits(cs) <= UnionUnit(cs, attr)
  {
    hide Alignment, MaxBits, RoundUp;
    var t := Union(cs, attr);
    PadUnionWellFormed(cs, attr);
    UnionWithin(cs, attr, Alignment(t));
    UnionWithin(cs, attr, Alignment(PadType(t)));
    var size, unit := MaxBits(cs), UnionUnit(cs, attr);
    UnionUnitInBytes(cs, attr);
    RoundUpBytes(size, unit);
    if size % unit != 0 {
      RoundedPast(size, unit);
    }
    QuotientOfBytes(RoundUp(size, unit), Alignment(t));
  }

  /** Of a packed one: exactly if no alignment is given, or its size is whole bytes, or the given
      alignment or the bytes of its size are not above its alignment. */
  lemma PackedUnionAlignmentKept(cs: seq<Component>, attr: Attr)
    requires WellFormed(Union(cs, attr)) && attr.packed
    ensures UnionUnit(cs, attr) > 0
    ensures var t := Union(cs, attr);
      Alignment(PadType(t)) == Alignment(t) <==>
        || MaxBits(cs) % BYTE == 0
        || Given(attr) <= Alignment(t)
        || UnionPadBytes(cs, attr) <= Alignment(t)
  {
    var t := Union(cs, attr);
    PadUnionWellFormed(cs, attr);
    UnionWithin(cs, attr, Alignment(t));
    UnionWithin(cs, attr, Alignment(PadType(t)));
  }

  lemma RoundedPast(size: nat, unit: nat)
    requires unit > 0 && size % unit != 0
    ensures RoundUp(size, unit) <= unit <==> size <= unit
  {
    QuotRem(size, unit);
    if size > unit {
      DivUnique(unit, unit, 1, 0);
    }
  }

  lemma QuotientOfBytes(size: nat, a: nat)
    requires size % BYTE == 0
    ensures size / BYTE <= a <==> size <= a * BYTE
  {}

  /** A union of nine bytes and an int: padded to twelve bytes, it is aligned to twelve. */
  function NineBytesOrInt(): Type {
    Union([Component(Member(0), Array(Scalar(1, PLAIN), 9, PLAIN), false), Component(Member(1), Scalar(4, PLAIN),
        false)],
          PLAIN)
  }

  /** A struct of that union alone. */
  function HoldsUnion(attr: Attr): Type {
    Struct([Component(Member(0), NineBytesOrInt(), false)], attr)
  }

  lemma UnionAlignmentGrows()
    ensures var t := NineBytesOrInt();
      WellFormed(t) && Alignment(t) == 4 && Alignment(PadType(t)) == 12 && SizeBits(PadType(t)) == 12 * BYTE
  {
    var t := NineBytesOrInt();
    var c, d := t.comps[0], t.comps[1];
    assert t.comps[1..] == [d] && [d][1..] == [];
    assert SizeBits(Scalar(1, PLAIN)) == 8;
    assert SizeBits(c.ty) == 8 * 9 && SizeBits(d.ty) == 32;
    assert Alignment(Scalar(1, PLAIN)) == 1;
    assert Alignment(c.ty) == 1 && Alignment(d.ty) == 4;
    assert MaxBits([d]) == 32 && MaxAlignment([d]) == 4;
    assert MaxBits(t.comps) == 72 && MaxAlignment(t.comps) == 4;
    var pad := Component(UnionPad, Scalar(12, PLAIN), true);
    assert PadUnion(t.comps, PLAIN) == t.comps + [pad];
    MaxSnoc(t.comps, pad);
  }

  /** The alignment of a struct grows with that of a union in it. */
  lemma StructAlignmentGrows()
    ensures var t := HoldsUnion(PLAIN);
      WellFormed(t) && Sound(t) && FromSource(t) && Alignment(t) == 4 && Alignment(PadType(t)) == 12
  {
    HoldsUnionSound(PLAIN);
    AlignmentOfStruct(HoldsUnion(PLAIN).comps, PLAIN);
    AlignmentUnchanged(HoldsUnion(PLAIN).comps, PLAIN);
    AlignmentOfStruct(PadTypes(HoldsUnion(PLAIN).comps), PLAIN);
  }

  lemma UnionIsUnion()
    ensures NineBytesOrInt().Union?
  {}

  lemma HoldsUnionSound(attr: Attr)
    requires !attr.packed
    ensures WellFormed(HoldsUnion(attr)) && Sound(HoldsUnion(attr)) && FromSource(HoldsUnion(attr))
    ensures var comps := HoldsUnion(attr).comps;
      MaxAlignment(comps) == 4 && MaxAlignment(PadTypes(comps)) == 12 && MembersEnd(comps) == 12
  {
    hide Alignment, SizeBits, NineBytesOrInt, PadType, PadTypes, MembersEnd;
    UnionAlignmentGrows();
    UnionIsUnion();
    var c := HoldsUnion(attr).comps[0];
    OneMember(c);
    assert c.ty < c && [c][1..] == [];
    assert MaxAlignment([c]) == Max(Alignment(c.ty), MaxAlignment([]));
    assert Sound(c.ty) && SoundAll([c]) && FromSource(c.ty) && AllFromSource([c]);
  }

  /** Every scalar size and the given alignment are powers of two, and the size is not a multiple of
      the alignment: the union's pad makes it 12 bytes aligned to 12, in a struct aligned to 8. */
  lemma UnionDefeatsPowersOfTwo()
    ensures var t := HoldsUnion(Attr(Some(8), false));
      WellFormed(t) && Sound(t) && FromSource(t) && !SizeFits(t)
  {
    var attr := Attr(Some(8), false);
    HoldsUnionSound(attr);
    StructSize(HoldsUnion(attr).comps, attr);
  }

  // ---- Powers of two -----------------------------------------------------------------------

  ghost predicate PowerOfTwo(n: nat) {
    exists k: nat :: n == Pow(2, k)
  }

  lemma PowersAgree(given: nat, members: nat)
    requires PowerOfTwo(given) && PowerOfTwo(members)
    ensures GivenFits(given, members)
  {
    var j: nat :| given == Pow(2, j);
    var k: nat :| members == Pow(2, k);
    if k <= j {
      PowMonotone(2, k, j);
    } else {
      PowAdd(2, j, k - j);
      MulCommutes(Pow(2, j), Pow(2, k - j));
      Multiple(Pow(2, k - j), Pow(2, j));
    }
  }

  lemma OneIsPower()
    ensures PowerOfTwo(1)
  {
    assert Pow(2, 0) == 1;
  }

  lemma {:induction false} ReprIsPower(bits: nat, result: nat)
    requires result >= 1 && PowerOfTwo(result)
    ensures PowerOfTwo(ReprBytes(bits, result))
    decreases bits - result * BYTE
  {
    if bits > result * BYTE {
      var k: nat :| result == Pow(2, k);
      assert Pow(2, k + 1) == result * 2;
      ReprIsPower(bits, result * 2);
    }
  }

  /** The size of a padded struct is a multiple of its alignment if the given alignment and those
      of its members, once their types are padded, are powers of two. */
  lemma PowersOfTwoFit(comps: seq<Component>, attr: Attr)
    requires WellFormed(Struct(comps, attr)) && Sound(Struct(comps, attr)) && !attr.packed && NoPads(comps)
    requires Given(attr) > 0 ==> PowerOfTwo(Given(attr))
    requires forall c <- PadTypes(comps) :: PowerOfTwo(Alignment(c.ty))
    ensures SizeFits(Struct(comps, attr))
  {
    hide Alignment;
    var inner := PadTypes(comps);
    StructSize(comps, attr);
    if Given(attr) > 0 && inner != [] {
      MaxAlignmentReached(inner);
      PowersAgree(Given(attr), MaxAlignment(inner));
    }
  }

  /** The sizes of scalars and the given alignments are powers of two, and a union's size, if that
      is rounded up past its alignment, is rounded up to a power of two. */
  ghost predicate Regular(t: Type)
    requires WellFormed(t)
  {
    && (Given(t.attr) > 0 ==> PowerOfTwo(Given(t.attr)))
    && match t
       case Scalar(bytes, _) => PowerOfTwo(bytes)
       case BitField(_, under, _) => Regular(under)
       case Array(elem, _, _) => Regular(elem)
       case Struct(comps, _) => AllRegular(comps)
       case Union(comps, attr) =>
         PadUnionWellFormed(comps, attr);
         AllRegular(comps) && (StaysWithin(t, Alignment(t)) || PowerOfTwo(UnionPadBytes(comps, attr)))
       case _ => true
  }

  ghost predicate AllRegular(cs: seq<Component>)
    requires WellFormedAll(cs)
  {
    forall c <- cs :: c.ty < c && Regular(c.ty)
  }

  /** Regular types are aligned to powers of two. */
  lemma {:induction false} RegularAlignment(t: Type)
    requires WellFormed(t) && Regular(t)
    ensures PowerOfTwo(Alignment(t))
    decreases t
  {
    OneIsPower();
    match t
    case Scalar(_, _) =>
    case BitField(_, under, _) => RegularAlignment(under);
    case ExtInt(width, _) => ReprIsPower(width, 1);
    case Array(elem, _, _) => RegularAlignment(elem);
    case Struct(comps, _) => RegularMembers(comps);
    case Union(comps, _) => RegularMembers(comps);
    case Other(_) =>
  }

  lemma {:induction false} RegularMembers(cs: seq<Component>)
    requires WellFormedAll(cs) && AllRegular(cs)
    ensures PowerOfTwo(Max(1, MaxAlignment(cs)))
    decreases cs
  {
    hide Alignment;
    OneIsPower();
    if cs != [] {
      MaxAlignmentReached(cs);
      var c :| c in cs && Alignment(c.ty) == MaxAlignment(cs);
      RegularAlignment(c.ty);
      AlignmentPositive(c.ty);
    }
  }

  /** They stay so when they are padded. */
  lemma {:induction false} RegularPadded(t: Type)
    requires WellFormed(t) && Sound(t) && FromSource(t) && Regular(t)
    ensures PowerOfTwo(Alignment(PadType(t)))
    decreases t
  {
    match t
    case Struct(comps, attr) =>
      OneIsPower();
      PadStructWellFormed(PadTypes(comps), attr);
      if !attr.packed && Given(attr) == 0 {
        AlignmentUnchanged(comps, attr);
        AlignmentOfStruct(PadTypes(comps), attr);
        RegularInner(comps);
      }
    case Union(comps, attr) =>
      RegularAlignment(t);
      RegularUnion(comps, attr);
    case _ => RegularAlignment(t);
  }

  lemma {:induction false} RegularInner(comps: seq<Component>)
    requires WellFormedAll(comps) && SoundAll(comps) && AllFromSource(comps) && AllRegular(comps)
    ensures forall c <- PadTypes(comps) :: PowerOfTwo(Alignment(c.ty))
    ensures PowerOfTwo(Max(1, MaxAlignment(PadTypes(comps))))
    decreases comps
  {
    hide Alignment;
    var inner := PadTypes(comps);
    OneIsPower();
    forall c <- inner ensures PowerOfTwo(Alignment(c.ty)) {
      var k :| 0 <= k < |inner| && inner[k] == c;
      PadTypesAt(comps, k);
      assert comps[k] in comps && comps[k].ty < comps[k];
      RegularPadded(comps[k].ty);
    }
    if inner != [] {
      MaxAlignmentReached(inner);
      AlignmentPositive(inner[0].ty);
      MaxAlignmentMember(inner);
    }
  }

  lemma RegularUnion(cs: seq<Component>, attr: Attr)
    requires WellFormed(Union(cs, attr)) && Regular(Union(cs, attr)) && PowerOfTwo(Alignment(Union(cs, attr)))
    ensures PowerOfTwo(Alignment(PadType(Union(cs, attr))))
  {
    var t := Union(cs, attr);
    PadUnionWellFormed(cs, attr);
    if MaxBits(cs) % UnionUnit(cs, attr) != 0 {
      var pad := Component(UnionPad, Scalar(UnionPadBytes(cs, attr), PLAIN), true);
      MaxSnoc(cs, pad);
      assert Alignment(pad.ty) == UnionPadBytes(cs, attr);
      assert PadType(t) == Union(cs + [pad], attr);
    }
    UnionWithin(cs, attr, Alignment(t));
  }

  /** The size of a padded regular struct is a multiple of its alignment. */
  lemma RegularStructFits(comps: seq<Component>, attr: Attr)
    requires var t := Struct(comps, attr); WellFormed(t) && Sound(t) && FromSource(t) && Regular(t) && !attr.packed
    ensures SizeFits(Struct(comps, attr))
  {
    RegularInner(comps);
    PowersOfTwoFit(comps, attr);
  }

  /** The two assertions that adjust_type makes about what add_padding did, for any struct or
      union that is not packed: the size is a multiple of the alignment, exactly if a given
      alignment agrees with the members', and padding the result again changes nothing. */
  lemma AdjustTypeAssertions(t: Type)
    requires WellFormed(t) && Sound(t) && (t.Struct? || t.Union?) && !t.attr.packed
    requires t.Struct? ==> NoPads(t.comps)
    ensures t.Union? ==> SizeFits(t)
    ensures t.Struct? ==>
      var given, members := Given(t.attr), MaxAlignment(PadTypes(t.comps));
      SizeFits(t) <==> GivenFits(given, members) || RoundUp(MembersEnd(t.comps), members) % given == 0
    ensures PadType(PadType(t)) == PadType(t)
  {
    IdempotentUnlessExt(t);
    if t.Struct? {
      SoundHasNoExt(t);
      StructSize(t.comps, t.attr);
    } else {
      UnionSize(t.comps, t.attr);
    }
  }

  lemma {:induction false} SoundHasNoExt(t: Type)
    requires WellFormed(t) && Sound(t)
    ensures ExtCount(t) == 0
    decreases t, 0
  {
    if t.Struct? {
      MembersHaveNoExt(t.comps);
    }
  }

  lemma {:induction false} MembersHaveNoExt(cs: seq<Component>)
    requires WellFormedAll(cs) && SoundAll(cs)
    ensures ExtCountAll(cs) == 0
    decreases cs, 1
  {
    if cs != [] {
      assert cs[0] in cs && cs[0].ty < cs[0];
      SoundHasNoExt(cs[0].ty);
      MembersHaveNoExt(cs[1..]);
    }
  }
}
