/** What alignments and sizes are, stated from the scalars that a type is made of. */
module TypeLaws {
  import opened Options
  import opened Powers
  import opened Padding

  // ---- Alignments --------------------------------------------------------------------------

  /** A power of two bytes that holds this many bits, and half of it does not. */
  ghost predicate LeastBytes(bits: nat, n: nat) {
    exists k: nat :: n == Pow(2, k) && HoldsFirst(bits, k)
  }

  ghost predicate HoldsFirst(bits: nat, k: nat) {
    bits <= Pow(2, k) * 8 && (k > 0 ==> bits > Pow(2, k - 1) * 8)
  }

  /** A type asks for an alignment: the one that the source gives it, or one byte if it is packed, or
      what it asks for by its kind; packed to a given alignment, the smaller one of the two. */
  ghost predicate AsksFor(t: Type, n: nat)
    decreases t, 1
  {
    if t.attr.align.Some? && t.attr.align.value > 0 then
      var given := t.attr.align.value;
      if !t.attr.packed then n == given
      else exists m: nat :: AsksByKind(t, m) && n == if m < given then m else given
    else if t.attr.packed then n == 1
    else AsksByKind(t, n)
  }

  /** A scalar asks for its size, an ExtInt for the bytes that represent it, an array for what its
      elements ask for, a bit-field for what the underlying type does, and a struct or a union for
      what any member does, or one byte. */
  ghost predicate AsksByKind(t: Type, n: nat)
    decreases t, 0
  {
    match t
    case Scalar(bytes, _) => n == bytes
    case ExtInt(width, _) => LeastBytes(width, n)
    case Array(elem, _, _) => AsksFor(elem, n)
    case BitField(_, under, _) => AsksFor(under, n)
    case Struct(comps, _) => n == 1 || MemberAsks(comps, n)
    case Union(comps, _) => n == 1 || MemberAsks(comps, n)
    case Other(_) => n == 1
  }

  ghost predicate MemberAsks(cs: seq<Component>, n: nat)
    decreases cs
  {
    exists c <- cs :: c.ty < c && AsksFor(c.ty, n)
  }

  /** The alignment of a type is the largest that it asks for. */
  lemma {:induction false} AlignmentIsLargest(t: Type)
    ensures AsksFor(t, Alignment(t))
    ensures forall n: nat :: AsksFor(t, n) ==> n <= Alignment(t)
    decreases t, 1
  {
    KindIsLargest(t);
  }

  /** The alignment of a type apart from what the source gives it. */
  function KindAlignment(t: Type): nat {
    match t
    case Array(elem, _, _) => Alignment(elem)
    case Struct(comps, _) => Max(1, MaxAlignment(comps))
    case Union(comps, _) => Max(1, MaxAlignment(comps))
    case BitField(_, under, _) => Alignment(under)
    case ExtInt(width, _) => ReprBytes(width, 1)
    case Scalar(bytes, _) => bytes
    case Other(_) => 1
  }

  lemma {:induction false} KindIsLargest(t: Type)
    ensures AsksByKind(t, KindAlignment(t))
    ensures forall n: nat :: AsksByKind(t, n) ==> n <= KindAlignment(t)
    decreases t, 0
  {
    match t
    case Array(elem, _, _) => AlignmentIsLargest(elem);
    case BitField(_, under, _) => AlignmentIsLargest(under);
    case Struct(comps, _) => MembersLargest(comps);
    case Union(comps, _) => MembersLargest(comps);
    case ExtInt(width, _) =>
      assert Pow(2, 0) == 1;
      ReprIsLeast(width, 1, 0);
      forall n: nat | LeastBytes(width, n) ensures n <= ReprBytes(width, 1) {
        LeastBytesOnce(width, n, ReprBytes(width, 1));
      }
    case _ =>
  }

  lemma {:induction false} MembersLargest(cs: seq<Component>)
    ensures MaxAlignment(cs) > 1 ==> MemberAsks(cs, MaxAlignment(cs))
    ensures forall n: nat :: MemberAsks(cs, n) ==> n <= MaxAlignment(cs)
    decreases cs
  {
    hide AsksFor, Alignment;
    if cs != [] {
      assert cs[0] in cs && cs[0].ty < cs[0] && cs == [cs[0]] + cs[1..];
      AlignmentIsLargest(cs[0].ty);
      MembersLargest(cs[1..]);
      assert MemberAsks(cs, Alignment(cs[0].ty));
      forall n: nat ensures MemberAsks(cs, n) <==> AsksFor(cs[0].ty, n) || MemberAsks(cs[1..], n) {}
    }
  }

  lemma {:induction false} ReprIsLeast(bits: nat, result: nat, k: nat)
    requires result == Pow(2, k) && (k > 0 ==> bits > Pow(2, k - 1) * 8)
    ensures LeastBytes(bits, ReprBytes(bits, result))
    decreases bits - result * BYTE
  {
    if bits > result * BYTE {
      assert Pow(2, k + 1) == 2 * result;
      ReprIsLeast(bits, result * 2, k + 1);
    } else {
      assert HoldsFirst(bits, k);
    }
  }

  lemma LeastBytesOnce(bits: nat, m: nat, n: nat)
    requires LeastBytes(bits, m) && LeastBytes(bits, n)
    ensures m == n
  {
    hide Pow;
    var j: nat :| m == Pow(2, j) && HoldsFirst(bits, j);
    var k: nat :| n == Pow(2, k) && HoldsFirst(bits, k);
    if j < k {
      PowMonotone(2, j, k - 1);
    } else if k < j {
      PowMonotone(2, k, j - 1);
    }
  }

  /** An array of arrays, outermost count first. */
  function ArrayOf(elem: Type, counts: seq<nat>): Type {
    if counts == [] then elem else Array(ArrayOf(elem, counts[1..]), counts[0], PLAIN)
  }

  /** An array of scalars of n bytes is aligned to n, in any number of dimensions. */
  lemma {:induction false} ArrayAlignment(n: nat, counts: seq<nat>)
    ensures Alignment(ArrayOf(Scalar(n, PLAIN), counts)) == n
  {
    if counts != [] {
      ArrayAlignment(n, counts[1..]);
    }
  }

  // ---- Sizes -------------------------------------------------------------------------------

  /** Made of scalars alone: arrays and structs of them, at any depth. */
  ghost predicate OfScalars(t: Type) {
    match t
    case Scalar(_, _) => true
    case Array(elem, _, _) => OfScalars(elem)
    case Struct(comps, _) => forall c <- comps :: c.ty < c && OfScalars(c.ty)
    case _ => false
  }

  /** The bytes of its scalars, in the order of memory. */
  ghost function ScalarBytes(t: Type): seq<nat>
    decreases t, 0
  {
    match t
    case Scalar(bytes, _) => [bytes]
    case Array(elem, count, _) => Times(ScalarBytes(elem), count)
    case Struct(comps, _) => MemberBytes(comps)
    case _ => []
  }

  ghost function MemberBytes(cs: seq<Component>): seq<nat>
    decreases cs, 1
  {
    if cs == [] then []
    else
      assert cs[0].ty < cs[0];
      ScalarBytes(cs[0].ty) + MemberBytes(cs[1..])
  }

  ghost function Times(s: seq<nat>, n: nat): seq<nat> {
    if n == 0 then [] else s + Times(s, n - 1)
  }

  ghost function Total(s: seq<nat>): nat {
    if s == [] then 0 else s[0] + Total(s[1..])
  }

  lemma {:induction false} TotalConcat(s: seq<nat>, t: seq<nat>)
    ensures Total(s + t) == Total(s) + Total(t)
  {
    if s == [] {
      assert s + t == t;
    } else {
      assert (s + t)[1..] == s[1..] + t;
      TotalConcat(s[1..], t);
    }
  }

  lemma {:induction false} TotalTimes(s: seq<nat>, n: nat)
    ensures Total(Times(s, n)) == Total(s) * n
  {
    if n > 0 {
      TotalTimes(s, n - 1);
      TotalConcat(s, Times(s, n - 1));
      assert Total(s) * n == Total(s) + Total(s) * (n - 1);
    }
  }

  /** A type made of scalars is as large as they are together. */
  lemma {:induction false} SizeOfScalars(t: Type)
    requires OfScalars(t)
    ensures SizeBits(t) == 8 * Total(ScalarBytes(t))
    decreases t, 0
  {
    match t
    case Scalar(bytes, _) => assert [bytes][1..] == [];
    case Array(elem, count, _) =>
      SizeOfScalars(elem);
      TotalTimes(ScalarBytes(elem), count);
      assert (8 * Total(ScalarBytes(elem))) * count == 8 * (Total(ScalarBytes(elem)) * count);
    case Struct(comps, _) => SizeOfMembers(comps);
  }

  lemma {:induction false} SizeOfMembers(cs: seq<Component>)
    requires forall c <- cs :: c.ty < c && OfScalars(c.ty)
    ensures SumBits(cs) == 8 * Total(MemberBytes(cs))
    decreases cs, 1
  {
    if cs != [] {
      assert cs[0] in cs && cs[0].ty < cs[0];
      SizeOfScalars(cs[0].ty);
      SizeOfMembers(cs[1..]);
      TotalConcat(ScalarBytes(cs[0].ty), MemberBytes(cs[1..]));
    }
  }

  /** A type takes the fewest bytes that hold its bits. */
  lemma BytesHoldBits(t: Type)
    ensures SizeBits(t) <= ByteSize(t) * 8 < SizeBits(t) + 8
  {}

  /** A union is as large as its largest member. */
  lemma {:induction false} SizeOfUnion(cs: seq<Component>, attr: Attr)
    ensures forall c <- cs :: SizeBits(c.ty) <= SizeBits(Union(cs, attr))
    ensures cs != [] ==> exists c <- cs :: SizeBits(c.ty) == SizeBits(Union(cs, attr))
    ensures cs == [] ==> SizeBits(Union(cs, attr)) == 0
    decreases cs
  {
    assert SizeBits(Union(cs, attr)) == MaxBits(cs);
    hide SizeBits;
    if cs != [] {
      var rest := cs[1..];
      UnionIsMax(rest, attr);
      SizeOfUnion(rest, attr);
      assert cs == [cs[0]] + rest && cs[0] in cs;
      if SizeBits(cs[0].ty) < MaxBits(rest) {
        var c :| c in rest && SizeBits(c.ty) == MaxBits(rest);
        assert c in cs;
      }
    }
  }

  lemma UnionIsMax(cs: seq<Component>, attr: Attr)
    ensures SizeBits(Union(cs, attr)) == MaxBits(cs)
  {}
}
