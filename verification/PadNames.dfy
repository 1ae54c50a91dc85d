/** The names of the members that padding inserts: each is numbered by its place when it is inserted,
    and no two members of a padded struct have the same name. */
module PadNames {
  import opened Options
  import opened Padding
  import opened PaddingLaws
  import opened LayoutLaws

  ghost predicate DistinctNames(cs: seq<Component>) {
    forall i, j :: 0 <= i < j < |cs| ==> cs[i].name != cs[j].name
  }

  ghost predicate Named(cs: seq<Component>, name: Name) {
    exists c <- cs :: c.name == name
  }

  /** A name that the first pass gives at or after a place. */
  predicate FirstPassName(name: Name, index: nat) {
    (name.BitPad? || name.ExtPad?) && name.index >= index
  }

  /** A name that the second pass gives within the `count` places from there. */
  predicate SecondPassName(name: Name, index: nat, count: nat) {
    name.Pad? && index <= name.index < index + count
  }

  lemma NamedConcat(x: seq<Component>, y: seq<Component>, name: Name)
    ensures Named(x + y, name) <==> Named(x, name) || Named(y, name)
  {
    if Named(x, name) {
      var c :| c in x && c.name == name;
      assert c in x + y;
    }
    if Named(y, name) {
      var c :| c in y && c.name == name;
      assert c in x + y;
    }
  }

  lemma DistinctConcat(x: seq<Component>, y: seq<Component>)
    requires DistinctNames(x) && DistinctNames(y) && forall c <- x :: !Named(y, c.name)
    ensures DistinctNames(x + y)
  {
    forall i, j | 0 <= i < j < |x + y| ensures (x + y)[i].name != (x + y)[j].name {
      if i < |x| <= j {
        assert x[i] in x && y[j - |x|] in y;
      }
    }
  }

  lemma FirstName(cs: seq<Component>)
    requires cs != [] && DistinctNames(cs)
    ensures DistinctNames(cs[1..]) && !Named(cs[1..], cs[0].name) && Named(cs, cs[0].name)
    ensures forall c <- cs[1..] :: c in cs
    ensures cs[0] in cs
  {
    assert cs[0] in cs;
  }

  /** The first pass keeps the names of the members and adds names of its own, numbered from the place
      it is at. */
  lemma {:induction false} BitPassNames(cs: seq<Component>, bits: nat, index: nat)
    requires DistinctNames(cs) && forall c <- cs :: c.name.Member?
    ensures DistinctNames(BitPass(cs, bits, index))
    ensures forall c <- BitPass(cs, bits, index) :: Named(cs, c.name) || FirstPassName(c.name, index)
  {
    hide BitPadBefore, BitHead, RunAfter, FirstPassName, Named, DistinctNames;
    if cs == [] {
      BitPadNames(bits, index);
    } else {
      var head, next := BitHead(cs[0], bits, index), RunAfter(cs[0], bits);
      var tail := BitPass(cs[1..], next, index + |head|);
      FirstName(cs);
      BitPassNames(cs[1..], next, index + |head|);
      BitHeadNames(cs[0], bits, index);
      HeadApart(cs[0], head, tail, cs[1..], index);
      DistinctConcat(head, tail);
      Later(cs, tail, index, index + |head|);
      InFront(cs, head, tail, index);
    }
  }

  lemma BitPadNames(bits: nat, index: nat)
    ensures DistinctNames(BitPadBefore(bits, index))
    ensures forall c <- BitPadBefore(bits, index) :: FirstPassName(c.name, index) && c.name.index < index + 1
  {}

  lemma BitHeadNames(c: Component, bits: nat, index: nat)
    requires c.name.Member?
    ensures var head := BitHead(c, bits, index);
      && DistinctNames(head)
      && forall d <- head :: d.name == c.name || (FirstPassName(d.name, index) && d.name.index < index + |head|)
  {}

  lemma HeadApart(c: Component, head: seq<Component>, tail: seq<Component>, rest: seq<Component>, index: nat)
    requires forall d <- head ::
      d.name == c.name || (FirstPassName(d.name, index) && d.name.index < index + |head|)
    requires forall d <- tail :: Named(rest, d.name) || FirstPassName(d.name, index + |head|)
    requires c.name.Member? && !Named(rest, c.name) && forall d <- rest :: d.name.Member?
    ensures forall d <- head :: !Named(tail, d.name)
  {
    forall d <- head ensures !Named(tail, d.name) {
      if Named(tail, d.name) {
        var e :| e in tail && e.name == d.name;
      }
    }
  }

  lemma Later(cs: seq<Component>, tail: seq<Component>, index: nat, later: nat)
    requires cs != [] && index <= later
    requires forall d <- tail :: Named(cs[1..], d.name) || FirstPassName(d.name, later)
    ensures forall d <- tail :: Named(cs, d.name) || FirstPassName(d.name, index)
  {
    forall d <- tail ensures Named(cs, d.name) || FirstPassName(d.name, index) {
      if Named(cs[1..], d.name) {
        var e :| e in cs[1..] && e.name == d.name;
        assert e in cs;
      }
    }
  }

  lemma InFront(cs: seq<Component>, head: seq<Component>, tail: seq<Component>, index: nat)
    requires cs != []
    requires forall d <- head :: d.name == cs[0].name || (FirstPassName(d.name, index) && d.name.index < index + |head|)
    requires forall d <- tail :: Named(cs, d.name) || FirstPassName(d.name, index)
    ensures forall d <- head + tail :: Named(cs, d.name) || FirstPassName(d.name, index)
  {
    hide FirstPassName;
    assert cs[0] in cs;
  }

  /** So does the second. */
  lemma {:induction false} PlacePassNames(cs: seq<Component>, p: Position, index: nat)
    requires Aligned(cs) && DistinctNames(cs) && forall c <- cs :: !c.name.Pad?
    ensures var r := PlacePass(cs, p, index);
      DistinctNames(r) && forall c <- r :: Named(cs, c.name) || SecondPassName(c.name, index, |r|)
  {
    hide PlaceHead, PlaceAfter, PlaceAlignment, Named, DistinctNames;
    if cs == [] {
      NoNames();
    } else {
      AlignedTail(cs);
      var head, q := PlaceHead(p, cs[0], index), PlaceAfter(p, cs[0], cs[1..]);
      var tail := PlacePass(cs[1..], q, index + |head|);
      FirstName(cs);
      PlacePassNames(cs[1..], q, index + |head|);
      PlaceHeadNames(p, cs[0], index);
      PlacedApart(cs, head, tail, index);
      DistinctConcat(head, tail);
    }
  }

  lemma NoNames()
    ensures DistinctNames([])
  {}

  lemma PlaceHeadNames(p: Position, c: Component, index: nat)
    requires PlaceAlignment(c) > 0 && !c.name.Pad?
    ensures var head := PlaceHead(p, c, index);
      DistinctNames(head) && forall d <- head :: d.name == c.name || SecondPassName(d.name, index, |head|)
  {}

  lemma PlacedApart(cs: seq<Component>, head: seq<Component>, tail: seq<Component>, index: nat)
    requires cs != [] && !Named(cs[1..], cs[0].name) && forall c <- cs :: !c.name.Pad?
    requires forall d <- head :: d.name == cs[0].name || SecondPassName(d.name, index, |head|)
    requires forall d <- tail :: Named(cs[1..], d.name) || SecondPassName(d.name, index + |head|, |tail|)
    ensures forall d <- head :: !Named(tail, d.name)
    ensures forall d <- head + tail :: Named(cs, d.name) || SecondPassName(d.name, index, |head + tail|)
  {
    assert cs[0] in cs && forall c <- cs[1..] :: c in cs;
    forall d <- tail ensures d.name !in (set e | e in head :: e.name)
      ensures Named(cs, d.name) || SecondPassName(d.name, index, |head + tail|)
    {
      if Named(cs[1..], d.name) {
        var e :| e in cs[1..] && e.name == d.name;
      }
    }
  }

  /** No two members of a padded struct have the same name. */
  lemma PaddedNamesDistinct(comps: seq<Component>, attr: Attr)
    requires WellFormed(Struct(comps, attr)) && DistinctNames(comps) && forall c <- comps :: c.name.Member?
    ensures DistinctNames(PadType(Struct(comps, attr)).comps)
  {
    hide PlacePass, BitPass, PlaceEnd;
    var inner := PadTypes(comps);
    forall k | 0 <= k < |comps| ensures inner[k].name == comps[k].name {
      PadTypesAt(comps, k);
    }
    PadStructWellFormed(inner, attr);
    BitPassNames(inner, 0, 0);
    var first := BitPass(inner, 0, 0);
    NoPadNames(inner, first);
    PlacePassNames(first, Position(0, 0), 0);
    var second := PlacePass(first, Position(0, 0), 0);
    var largest := Max(LargestPlace(first), Given(attr));
    var end := EndPad(PlaceEnd(first, Position(0, 0)).offset, largest, |second|);
    EndPadName(first, second, end);
  }

  lemma NoPadNames(cs: seq<Component>, first: seq<Component>)
    requires forall c <- cs :: c.name.Member?
    requires forall c <- first :: Named(cs, c.name) || FirstPassName(c.name, 0)
    ensures forall c <- first :: !c.name.Pad?
  {
    forall c <- first ensures !c.name.Pad? {
      if Named(cs, c.name) {
        var d :| d in cs && d.name == c.name;
      }
    }
  }

  lemma EndPadName(first: seq<Component>, second: seq<Component>, end: seq<Component>)
    requires DistinctNames(second) && (forall c <- first :: !c.name.Pad?)
    requires forall c <- second :: Named(first, c.name) || SecondPassName(c.name, 0, |second|)
    requires end == [] || (|end| == 1 && end[0].name == Pad(|second|))
    ensures DistinctNames(second + end)
  {
    forall c <- second ensures !Named(end, c.name) {
      if Named(first, c.name) {
        var d :| d in first && d.name == c.name;
      }
    }
    DistinctConcat(second, end);
  }
}
