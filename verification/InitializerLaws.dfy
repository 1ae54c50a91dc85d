/** What initialising an object from a list means: flat lists fill its scalars in order, braces
    that the elision rules let one leave out can be put back, an open array gets as many
    elements as the list fills, and no entry is read that is not there. */
module InitializerLaws {
  import opened Options
  import opened Initializer
  import Powers

  /** No entry is in braces. */
  ghost predicate Flat(items: seq<Item>) {
    forall x <- items :: x.Expr?
  }

  /** Object types of known size: arrays within the limit, no open arrays, no empty unions. Of a
      union, only the alternative that an undesignated list initialises matters. */
  ghost predicate Sized(ty: Ty) {
    match ty
    case Scalar => true
    case Array(elem, size) => 0 <= size <= MAX_SIZE && Sized(elem)
    case OpenArray(_) => false
    case Struct(fields) => forall f <- fields :: Sized(f)
    case Union(fields) => fields != [] && Sized(fields[0])
  }

  /** A scalar of the initialised object: set from an entry, or zero. */
  datatype Leaf = Set(item: Item) | Clear

  /** The scalars of a value in declaration order; of a union, those of its alternative. */
  function Leaves(v: Value): seq<Leaf> {
    match v
    case Cast(item) => [Set(item)]
    case Same(item) => [Set(item)]
    case Nil => []
    case Zero => [Clear]
    case Elements(vals) => LeavesAll(vals)
    case Repeat(val, n) => Copies(Leaves(val), n)
    case Members(vals) => LeavesAll(vals)
    case Alternative(val) => Leaves(val)
  }

  function LeavesAll(vs: seq<Value>): seq<Leaf> {
    if vs == [] then [] else Leaves(vs[0]) + LeavesAll(vs[1..])
  }

  function Copies(s: seq<Leaf>, n: nat): seq<Leaf> {
    if n == 0 then [] else s + Copies(s, n - 1)
  }

  function Min(x: nat, y: nat): nat {
    if x < y then x else y
  }

  /** The entries after the first n. */
  function Beyond(xs: seq<Item>, n: nat): seq<Item> {
    xs[Min(|xs|, n)..]
  }

  lemma BeyondEnds(xs: seq<Item>, n: nat)
    ensures Beyond(xs, 0) == xs && Beyond([], n) == []
    ensures xs != [] ==> Beyond(xs, 1) == xs[1..]
    ensures Flat(xs) ==> Flat(Beyond(xs, n))
  {}

  /** n scalars filled from a list, and zeros once it is used up. */
  function Fill(xs: seq<Item>, n: nat): (r: seq<Leaf>)
    ensures |r| == n
  {
    seq(n, k => if 0 <= k < |xs| then Set(xs[k]) else Clear)
  }

  lemma FillSplit(xs: seq<Item>, a: nat, b: nat)
    ensures Fill(xs, a + b) == Fill(xs, a) + Fill(Beyond(xs, a), b)
  {}

  lemma DropTwice(xs: seq<Item>, a: nat, b: nat)
    ensures Beyond(Beyond(xs, a), b) == Beyond(xs, a + b)
  {}

  lemma {:induction false} CopiesOfZeros(s: nat, n: nat)
    ensures n * s >= 0 && Copies(Fill([], s), n) == Fill([], n * s)
  {
    if n > 0 {
      CopiesOfZeros(s, n - 1);
      TimesStep(n, s);
      FillSplit([], s, (n - 1) * s);
    }
  }

  lemma TimesStep(n: nat, s: nat)
    requires n > 0
    ensures (n - 1) * s >= 0 && n * s == s + (n - 1) * s
  {}

  lemma {:induction false} RepeatedLeaves(z: Value, n: nat)
    ensures LeavesAll(Repeated(z, n)) == Copies(Leaves(z), n)
  {
    if n > 0 {
      RepeatedLeaves(z, n - 1);
      assert Repeated(z, n)[1..] == Repeated(z, n - 1);
    }
  }

  /** Zero initialisation zeroes every scalar. */
  lemma {:induction false} ZeroLeaves(ty: Ty)
    requires Sized(ty)
    ensures ZeroOf(ty).Some? && Leaves(ZeroOf(ty).value) == Fill([], Slots(ty))
    decreases ty, 0
  {
    match ty
    case Scalar =>
    case Array(elem, size) =>
      ZeroLeaves(elem);
      CopiesOfZeros(Slots(elem), size);
      SlotsOfArray(elem, size);
    case Struct(fields) =>
      ZerosLeaves(fields);
    case Union(fields) =>
      ZeroLeaves(fields[0]);
  }

  lemma {:induction false} ZerosLeaves(tys: seq<Ty>)
    requires forall t <- tys :: Sized(t)
    ensures ZerosOf(tys).Some? && LeavesAll(ZerosOf(tys).value) == Fill([], SlotsAll(tys))
    decreases tys, 1
  {
    if tys != [] {
      assert tys[0] in tys;
      ZeroLeaves(tys[0]);
      ZerosLeaves(tys[1..]);
      FillSplit([], Slots(tys[0]), SlotsAll(tys[1..]));
      assert ZerosOf(tys).value[1..] == ZerosOf(tys[1..]).value;
    }
  }

  /** A flat list fills the scalars of an object in declaration order with its first entries,
      zeroes the others, and exactly those entries are consumed. */
  lemma {:induction false} FlatInit(ty: Ty, xs: seq<Item>, goDown: bool)
    requires Sized(ty) && Flat(xs) && (xs != [] || ty.Array?)
    ensures Init(ty, xs, goDown).Done?
    ensures Init(ty, xs, goDown).rest == Beyond(xs, Slots(ty))
    ensures Leaves(Init(ty, xs, goDown).value) == Fill(xs, Slots(ty))
    decreases ty, 0, 0
  {
    hide Beyond;
    BeyondEnds(xs, Slots(ty));
    assert xs != [] ==> xs[0] in xs;
    match ty
    case Scalar =>
    case Array(elem, size) =>
      FlatElements(elem, size, xs);
      SlotsOfArray(elem, size);
    case Struct(fields) =>
      FlatFields(fields, xs);
    case Union(fields) =>
      FlatInit(fields[0], xs, true);
  }

  lemma {:induction false} FlatElements(elem: Ty, n: nat, xs: seq<Item>)
    requires Sized(elem) && Flat(xs)
    ensures InitElements(elem, n, xs).DoneAll? && n * Slots(elem) >= 0
    ensures InitElements(elem, n, xs).left == Beyond(xs, n * Slots(elem))
    ensures LeavesAll(InitElements(elem, n, xs).vals) == Fill(xs, n * Slots(elem))
    decreases elem, 1, n
  {
    hide Init, Leaves, Fill, ZeroOf, Beyond;
    var s := Slots(elem);
    BeyondEnds(xs, s);
    BeyondEnds(xs, n * s);
    if n == 0 {
    } else if xs == [] {
      ZeroLeaves(elem);
      RepeatedLeaves(ZeroOf(elem).value, n);
      CopiesOfZeros(s, n);
    } else {
      FlatInit(elem, xs, true);
      var rest := Beyond(xs, s);
      FlatElements(elem, n - 1, rest);
      TimesStep(n, s);
      FillSplit(xs, s, (n - 1) * s);
      DropTwice(xs, s, (n - 1) * s);
      assert InitElements(elem, n, xs).vals[1..] == InitElements(elem, n - 1, rest).vals;
    }
  }

  lemma {:induction false} FlatFields(tys: seq<Ty>, xs: seq<Item>)
    requires Flat(xs) && forall t <- tys :: Sized(t)
    ensures InitFields(tys, xs).DoneAll?
    ensures InitFields(tys, xs).left == Beyond(xs, SlotsAll(tys))
    ensures LeavesAll(InitFields(tys, xs).vals) == Fill(xs, SlotsAll(tys))
    decreases tys, 1, 0
  {
    hide Slots, Init, Leaves, Fill, ZeroOf, Beyond;
    BeyondEnds(xs, SlotsAll(tys));
    if tys == [] {
      assert Fill(xs, 0) == [];
    } else {
      assert tys[0] in tys;
      var s := Slots(tys[0]);
      BeyondEnds(xs, s);
      var rest := Beyond(xs, s);
      FlatFields(tys[1..], rest);
      FillSplit(xs, s, SlotsAll(tys[1..]));
      DropTwice(xs, s, SlotsAll(tys[1..]));
      if xs == [] {
        ZeroLeaves(tys[0]);
        assert rest == xs;
      } else {
        FlatInit(tys[0], xs, true);
      }
      assert InitFields(tys, xs).vals[1..] == InitFields(tys[1..], rest).vals;
    }
  }

  /** An outcome where another list is left over. */
  function InsteadOf(o: Outcome, rest: seq<Item>): Outcome {
    match o
    case Done(v, _) => Done(v, rest)
    case Thrown(_) => o
  }

  /** An entry in braces initialises exactly one object: it is consumed alone, whatever its list
      leaves over. */
  lemma BracesConsumeOne(ty: Ty, inner: seq<Item>, tail: seq<Item>)
    ensures Init(ty, [Braces(inner)] + tail, true) == InsteadOf(Init(ty, inner, false), tail)
  {
    assert ([Braces(inner)] + tail)[1..] == tail;
  }

  // ---- Sizes, unions and zeros -------------------------------------------------------------

  /** Exactly the sizes from zero to a million are accepted. */
  lemma ArraySizes(elem: Ty, size: int, xs: seq<Item>, goDown: bool)
    requires Sized(elem) && Flat(xs)
    ensures var o := Init(Array(elem, size), xs, goDown);
      && (o == Thrown(NegativeSize) <==> size < 0)
      && (o == Thrown(TooLarge) <==> size > 1000000)
      && (o.Done? <==> 0 <= size <= 1000000)
  {
    assert xs != [] ==> xs[0] in xs;
    if 0 <= size <= MAX_SIZE {
      FlatInit(Array(elem, size), xs, goDown);
    }
  }

  /** Of a union the first member is set, by what the list gives it, and an empty union cannot be set;
      its zero value is that of its first member too. */
  lemma UnionSetsFirst(first: Ty, others: seq<Ty>, items: seq<Item>)
    requires items != [] && !items[0].Designated?
    ensures var o := Init(first, items, true);
      Init(Union([first] + others), items, false) == if o.Done? then Done(Alternative(o.value), o.rest) else o
    ensures Init(Union([]), items, false) == Thrown(EmptyUnion)
    ensures ZeroOf(Union([first] + others)) ==
      if ZeroOf(first).Some? then Some(Alternative(ZeroOf(first).value)) else None
  {
    assert ([first] + others)[0] == first;
  }

  /** Something in the object has no zero value: an open array, an array of negative size, or an empty
      union, in the first member of each union. */
  ghost predicate HasNoZero(ty: Ty) {
    match ty
    case Scalar => false
    case Array(elem, size) => size < 0 || HasNoZero(elem)
    case OpenArray(_) => true
    case Struct(fields) => exists f <- fields :: HasNoZero(f)
    case Union(fields) => fields == [] || HasNoZero(fields[0])
  }

  /** Zero initialisation fails exactly then. */
  lemma {:induction false} ZeroExactly(ty: Ty)
    ensures ZeroOf(ty).None? <==> HasNoZero(ty)
    decreases ty, 0
  {
    match ty
    case Array(elem, _) => ZeroExactly(elem);
    case Struct(fields) => ZerosExactly(fields);
    case Union(fields) =>
      if fields != [] {
        ZeroExactly(fields[0]);
      }
    case _ =>
  }

  lemma {:induction false} ZerosExactly(tys: seq<Ty>)
    ensures ZerosOf(tys).None? <==> exists t <- tys :: HasNoZero(t)
    decreases tys, 1
  {
    if tys != [] {
      ZeroExactly(tys[0]);
      ZerosExactly(tys[1..]);
      assert tys == [tys[0]] + tys[1..];
    }
  }

  // ---- Open arrays -------------------------------------------------------------------------

  /** The elements that a list of `len` entries fills, the last one perhaps in part. */
  function ElementsFilled(len: nat, slots: nat): nat
    requires slots > 0
  {
    (len + slots - 1) / slots
  }

  lemma FilledStep(len: nat, slots: nat)
    requires slots > 0 && len > 0
    ensures ElementsFilled(len, slots) == 1 + ElementsFilled(len - Min(len, slots), slots)
  {
    if len <= slots {
      DivOne(len + slots - 1, slots, 1);
      DivOne(slots - 1, slots, 0);
    } else {
      var q := ElementsFilled(len - slots, slots);
      var r := (len - slots + slots - 1) % slots;
      assert len + slots - 1 == (q + 1) * slots + r;
      DivOne(len + slots - 1, slots, q + 1);
    }
  }

  lemma DivOne(x: nat, d: nat, q: nat)
    requires d > 0 && q * d <= x < (q + 1) * d
    ensures x / d == q
  {
    Powers.DivUnique(x, d, q, x - q * d);
  }

  /** An open array initialised from a flat list gets as many elements as the list fills,
      rounded up, and its scalars are those of the list followed by zeros. */
  lemma {:induction false} FlatOpenArray(elem: Ty, xs: seq<Item>)
    requires Sized(elem) && Slots(elem) >= 1 && Flat(xs)
    ensures InitAll(elem, xs).DoneAll?
    ensures |InitAll(elem, xs).vals| == ElementsFilled(|xs|, Slots(elem))
    ensures |InitAll(elem, xs).vals| * Slots(elem) >= 0
    ensures LeavesAll(InitAll(elem, xs).vals) == Fill(xs, |InitAll(elem, xs).vals| * Slots(elem))
    decreases |xs|
  {
    hide Init, Leaves, Fill, Beyond, Slots, ElementsFilled;
    var s := Slots(elem);
    if xs == [] {
      NothingFilled(s);
    } else {
      var rest := Beyond(xs, s);
      FlatInit(elem, xs, true);
      BeyondEnds(xs, s);
      BeyondLength(xs, s);
      FlatOpenArray(elem, rest);
      FilledStep(|xs|, s);
      var vs := InitAll(elem, rest).vals;
      TimesStep(|vs| + 1, s);
      FillSplit(xs, s, |vs| * s);
      assert InitAll(elem, xs).vals[1..] == vs;
    }
  }

  lemma NothingFilled(slots: nat)
    requires slots > 0
    ensures ElementsFilled(0, slots) == 0 && Fill([], 0) == []
  {
    DivOne(slots - 1, slots, 0);
  }

  lemma BeyondLength(xs: seq<Item>, n: nat)
    ensures |Beyond(xs, n)| == |xs| - Min(|xs|, n)
  {}

  /** A struct that ends in an open array: a flat list that is longer than the scalars before it
      fills as many elements as it has entries for, rounded up. Without an entry for the array the
      initialisation fails, because an open array has no zero value. */
  lemma FlatFlexible(fields: seq<Ty>, elem: Ty, xs: seq<Item>)
    requires (forall f <- fields :: Sized(f)) && Sized(elem) && Slots(elem) >= 1 && Flat(xs) && xs != []
    ensures |xs| <= SlotsAll(fields) ==> Init(Struct(fields + [OpenArray(elem)]), xs, false) == Thrown(NoZero)
    ensures |xs| > SlotsAll(fields) ==>
      FlexibleFilled(fields, elem, xs, ElementsFilled(|xs| - SlotsAll(fields), Slots(elem)))
      && var vals := InitFields(fields + [OpenArray(elem)], xs).vals;
         Init(Struct(fields + [OpenArray(elem)]), xs, false) == Done(Members(vals), [])
  {
    hide Init, InitFields, Fill, Leaves, LeavesAll, Slots, ElementsFilled;
    assert xs[0] in xs;
    StructByFields(fields + [OpenArray(elem)], xs);
    if |xs| <= SlotsAll(fields) {
      FlexibleShort(fields, elem, xs);
    } else {
      FlexibleLong(fields, elem, xs);
    }
  }

  lemma StructByFields(tys: seq<Ty>, items: seq<Item>)
    requires items != [] && items[0].Expr?
    ensures var o := InitFields(tys, items);
      Init(Struct(tys), items, false) == if o.DoneAll? then Done(Members(o.vals), o.left) else Thrown(o.error)
  {}

  /** The open array at the end has n elements, and all scalars are filled in order. */
  ghost predicate FlexibleFilled(fields: seq<Ty>, elem: Ty, xs: seq<Item>, n: nat) {
    var o := InitFields(fields + [OpenArray(elem)], xs);
    && o.DoneAll? && o.left == [] && o.vals[|fields|].Elements? && |o.vals[|fields|].vals| == n
    && n * Slots(elem) >= 0 && LeavesAll(o.vals) == Fill(xs, SlotsAll(fields) + n * Slots(elem))
  }

  lemma {:induction false} FlexibleShort(fields: seq<Ty>, elem: Ty, xs: seq<Item>)
    requires (forall f <- fields :: Sized(f)) && Flat(xs) && |xs| <= SlotsAll(fields)
    ensures InitFields(fields + [OpenArray(elem)], xs) == ThrownAll(NoZero)
    decreases |fields|
  {
    hide Init, Slots, Beyond, Leaves, Fill;
    var all := fields + [OpenArray(elem)];
    if fields == [] {
      assert all == [OpenArray(elem)];
    } else {
      assert all[0] == fields[0] && all[1..] == fields[1..] + [OpenArray(elem)] && fields[0] in fields;
      var s := Slots(fields[0]);
      BeyondEnds(xs, s);
      BeyondLength(xs, s);
      FlexibleShort(fields[1..], elem, Beyond(xs, s));
      if xs == [] {
        ZeroLeaves(fields[0]);
      } else {
        FlatInit(fields[0], xs, true);
      }
    }
  }

  lemma {:induction false} FlexibleLong(fields: seq<Ty>, elem: Ty, xs: seq<Item>)
    requires (forall f <- fields :: Sized(f)) && Sized(elem) && Slots(elem) >= 1 && Flat(xs)
    requires |xs| > SlotsAll(fields)
    ensures FlexibleFilled(fields, elem, xs, ElementsFilled(|xs| - SlotsAll(fields), Slots(elem)))
    decreases |fields|
  {
    hide Init, InitFields, InitAll, FlexibleFilled, Slots, Beyond, ElementsFilled, Weight, Leaves, LeavesAll, Fill;
    if fields == [] {
      FlexibleEnd(elem, xs);
    } else {
      assert fields[0] in fields;
      var s := Slots(fields[0]);
      BeyondEnds(xs, s);
      BeyondLength(xs, s);
      FlexibleLong(fields[1..], elem, Beyond(xs, s));
      FlexibleStep(fields, elem, xs, ElementsFilled(|xs| - SlotsAll(fields), Slots(elem)));
    }
  }

  // One more member in front.
  lemma FlexibleStep(fields: seq<Ty>, elem: Ty, xs: seq<Item>, n: nat)
    requires fields != [] && Sized(fields[0]) && Flat(xs) && xs != []
    requires FlexibleFilled(fields[1..], elem, Beyond(xs, Slots(fields[0])), n)
    ensures FlexibleFilled(fields, elem, xs, n)
  {
    hide Init, Slots, Beyond, Leaves, Fill, ZeroOf;
    var all := fields + [OpenArray(elem)];
    assert all[0] == fields[0] && all[1..] == fields[1..] + [OpenArray(elem)];
    FlatInit(fields[0], xs, true);
    FillSplit(xs, Slots(fields[0]), SlotsAll(fields[1..]) + n * Slots(elem));
    var vals, vals1 := InitFields(all, xs).vals, InitFields(all[1..], Beyond(xs, Slots(fields[0]))).vals;
    assert vals[1..] == vals1 && vals[|fields|] == vals1[|fields| - 1];
  }

  lemma FlexibleEnd(elem: Ty, xs: seq<Item>)
    requires Sized(elem) && Slots(elem) >= 1 && Flat(xs) && xs != []
    ensures FlexibleFilled([], elem, xs, ElementsFilled(|xs|, Slots(elem)))
  {
    hide Init, InitAll, Slots, Fill, ElementsFilled, Weight;
    var tys := [OpenArray(elem)];
    assert [] + tys == tys && tys[1..] == [] && xs[0] in xs;
    FlatOpenArray(elem, xs);
    OpenArrayFilled(elem, xs);
    var vals := InitAll(elem, xs).vals;
    assert InitFields([], []) == DoneAll([], []);
    assert InitFields(tys, xs) == DoneAll([Elements(vals)], []);
    assert [Elements(vals)][1..] == [] && LeavesAll([]) == [];
    assert LeavesAll([Elements(vals)]) == LeavesAll(vals) + [];
  }

  lemma OpenArrayFilled(elem: Ty, xs: seq<Item>)
    requires xs != [] && xs[0].Expr? && InitAll(elem, xs).DoneAll?
    ensures Init(OpenArray(elem), xs, true) == Done(Elements(InitAll(elem, xs).vals), [])
  {}

  // ---- Open arrays that never end ----------------------------------------------------------

  /** A designated list comes to an object that takes it: structs and unions do, and scalars. */
  ghost predicate TakesDesignated(ty: Ty) {
    match ty
    case Array(elem, size) => size > 0 && TakesDesignated(elem)
    case _ => true
  }

  /** An entry that an object without scalars leaves where it is: an expression, or a designated
      list if there is nothing to take it. */
  ghost predicate LeftAlone(ty: Ty, item: Item) {
    match item
    case Expr(_, _) => true
    case Braces(_) => false
    case Designated(_) => !TakesDesignated(ty)
  }

  /** Elements without scalars come to an entry that they leave where it is, and those before it
      are initialised without an error. */
  ghost predicate Stuck(elem: Ty, items: seq<Item>)
    decreases Weight(items)
  {
    && items != []
    && var o := Init(elem, items, true);
       o.Done? && (LeftAlone(elem, items[0]) || (o.rest != items && Stuck(elem, o.rest)))
  }

  lemma {:induction false} TakesNothing(ty: Ty, items: seq<Item>)
    requires Slots(ty) == 0 && items != [] && LeftAlone(ty, items[0])
    ensures Init(ty, items, true).Done? ==> Init(ty, items, true).rest == items
    decreases ty, 0, 0
  {
    match ty
    case Array(elem, size) =>
      if 0 < size <= MAX_SIZE {
        SlotlessElement(elem, size);
        NoElementTakes(elem, size, items);
      }
    case OpenArray(elem) =>
      if items[0].Expr? {
        TakesNothing(elem, items);
      }
    case Struct(fields) =>
      NoFieldTakes(fields, items);
    case Union(fields) =>
      if fields != [] {
        TakesNothing(fields[0], items);
      }
  }

  lemma SlotlessElement(elem: Ty, size: nat)
    requires size > 0 && Slots(Array(elem, size)) == 0
    ensures Slots(elem) == 0
  {
    SlotsOfArray(elem, size);
    if Slots(elem) > 0 {
      Powers.MulAtLeast(Slots(elem), 1, size);
    }
  }

  lemma {:induction false} NoElementTakes(elem: Ty, n: nat, items: seq<Item>)
    requires Slots(elem) == 0 && items != [] && LeftAlone(elem, items[0])
    ensures InitElements(elem, n, items).DoneAll? ==> InitElements(elem, n, items).left == items
    decreases elem, 1, n
  {
    if n > 0 {
      TakesNothing(elem, items);
      NoElementTakes(elem, n - 1, items);
    }
  }

  lemma {:induction false} NoFieldTakes(tys: seq<Ty>, items: seq<Item>)
    requires SlotsAll(tys) == 0 && items != [] && items[0].Expr?
    ensures InitFields(tys, items).DoneAll? ==> InitFields(tys, items).left == items
    decreases tys, 1, 0
  {
    if tys != [] {
      TakesNothing(tys[0], items);
      NoFieldTakes(tys[1..], items);
    }
  }

  lemma {:induction false} TakesSome(ty: Ty, items: seq<Item>)
    requires items != [] && items[0].Designated? && TakesDesignated(ty)
    ensures Init(ty, items, true).Done? ==> Init(ty, items, true).rest != items
    decreases ty
  {
    match ty
    case Array(elem, size) =>
      if size <= MAX_SIZE {
        TakesSome(elem, items);
        assert InitElements(elem, size, items).DoneAll? ==> Init(elem, items, true).Done?;
      }
    case _ =>
  }

  /** The loop over an open array goes on for ever exactly if its elements have no scalar and come
      to an entry that they leave where it is. */
  lemma {:induction false} OpenArrayDiverges(elem: Ty, items: seq<Item>)
    requires Progressive(elem)
    ensures Init(OpenArray(elem), items, false) == Thrown(Diverges) <==> Slots(elem) == 0 && Stuck(elem, items)
    decreases Weight(items)
  {
    assert Init(OpenArray(elem), items, false) == Thrown(Diverges) <==> InitAll(elem, items) == ThrownAll(Diverges);
    if Slots(elem) == 0 && items != [] {
      var o := Init(elem, items, true);
      if LeftAlone(elem, items[0]) {
        TakesNothing(elem, items);
      } else {
        InnerWeighsLess(items);
        if items[0].Designated? {
          TakesSome(elem, items);
        }
        if o.Done? {
          OpenArrayDiverges(elem, o.rest);
        }
      }
    }
  }

  /** With a flat list it ends exactly if an element has a scalar. */
  lemma FlatOpenArrayEnds(elem: Ty, xs: seq<Item>)
    requires Sized(elem) && Flat(xs) && xs != []
    ensures Init(OpenArray(elem), xs, false) == Thrown(Diverges) <==> Slots(elem) == 0
  {
    if Slots(elem) >= 1 {
      FlatOpenArray(elem, xs);
    } else {
      FlatInit(elem, xs, true);
      BeyondEnds(xs, 0);
    }
  }

  // ---- Putting the braces back -------------------------------------------------------------

  /** Every subobject has a slot. */
  ghost predicate Slotted(ty: Ty) {
    Slots(ty) >= 1 && match ty
    case Scalar => true
    case Array(elem, _) => Slotted(elem)
    case OpenArray(elem) => Slotted(elem)
    case Struct(fields) => forall f <- fields :: Slotted(f)
    case Union(fields) => Slotted(fields[0])
  }

  /** The entry for one object with every brace written out, from a flat list whose first
      entries it takes. */
  function Bracketed(ty: Ty, xs: seq<Item>): Item
    requires xs != []
    decreases ty, 0, 0
  {
    match ty
    case Scalar => xs[0]
    case Array(elem, size) => Braces(BracketedElements(elem, if size < 0 then 0 else size, xs))
    case OpenArray(_) => Braces(xs)
    case Struct(fields) => Braces(BracketedFields(fields, xs))
    case Union(fields) => Braces(if fields == [] then [] else [Bracketed(fields[0], xs)])
  }

  function BracketedElements(elem: Ty, n: nat, xs: seq<Item>): seq<Item>
    decreases elem, 1, n
  {
    if n == 0 || xs == [] then []
    else [Bracketed(elem, xs)] + BracketedElements(elem, n - 1, Beyond(xs, Slots(elem)))
  }

  function BracketedFields(tys: seq<Ty>, xs: seq<Item>): seq<Item>
    decreases tys, 1, 0
  {
    if tys == [] || xs == [] then []
    else [Bracketed(tys[0], xs)] + BracketedFields(tys[1..], Beyond(xs, Slots(tys[0])))
  }

  /** Leaving out braces changes nothing: the fully bracketed entry initialises an object to the
      very value that the flat list does. */
  lemma {:induction false} ElisionIsBracketing(ty: Ty, xs: seq<Item>, tail: seq<Item>)
    requires Sized(ty) && Slotted(ty) && Flat(xs) && xs != []
    ensures Init(ty, xs, true).Done?
    ensures Init(ty, [Bracketed(ty, xs)] + tail, true) == Done(Init(ty, xs, true).value, tail)
    decreases ty, 0, 0
  {
    hide Leaves, Fill, ZeroOf, Beyond, LeavesAll;
    FlatInit(ty, xs, true);
    assert xs[0] in xs;
    var entry := [Bracketed(ty, xs)] + tail;
    assert entry[1..] == tail;
    match ty
    case Scalar =>
    case Array(elem, size) =>
      BracketedElementsSame(elem, size, xs);
      BracesConsumeOne(ty, BracketedElements(elem, size, xs), tail);
    case Struct(fields) =>
      BracketedFieldsSame(fields, xs);
      FieldsNotEmpty(fields, xs);
      BracesConsumeOne(ty, BracketedFields(fields, xs), tail);
    case Union(fields) =>
      ElisionIsBracketing(fields[0], xs, []);
      assert [Bracketed(fields[0], xs)] + [] == [Bracketed(fields[0], xs)];
      BracesConsumeOne(ty, [Bracketed(fields[0], xs)], tail);
  }

  lemma FieldsNotEmpty(fields: seq<Ty>, xs: seq<Item>)
    requires SlotsAll(fields) >= 1 && xs != []
    ensures BracketedFields(fields, xs) != []
  {}

  lemma {:induction false} BracketedElementsSame(elem: Ty, n: nat, xs: seq<Item>)
    requires Sized(elem) && Slotted(elem) && Flat(xs)
    ensures InitElements(elem, n, xs).DoneAll?
    ensures InitElements(elem, n, BracketedElements(elem, n, xs)) == DoneAll(InitElements(elem, n, xs).vals, [])
    decreases elem, 1, n
  {
    hide Init, Bracketed, ZeroOf, Leaves, LeavesAll, Fill, Beyond, Slots;
    FlatElements(elem, n, xs);
    if n != 0 && xs != [] {
      FlatInit(elem, xs, true);
      var rest := Beyond(xs, Slots(elem));
      var tail := BracketedElements(elem, n - 1, rest);
      ElisionIsBracketing(elem, xs, tail);
      BeyondEnds(xs, Slots(elem));
      BracketedElementsSame(elem, n - 1, rest);
    } else if n != 0 {
      ZeroLeaves(elem);
    }
  }

  lemma {:induction false} BracketedFieldsSame(tys: seq<Ty>, xs: seq<Item>)
    requires Flat(xs) && forall t <- tys :: Sized(t) && Slotted(t)
    ensures InitFields(tys, xs).DoneAll?
    ensures InitFields(tys, BracketedFields(tys, xs)) == DoneAll(InitFields(tys, xs).vals, [])
    decreases tys, 1, 0
  {
    FlatFields(tys, xs);
    if tys != [] {
      assert tys[0] in tys;
      var rest := Beyond(xs, Slots(tys[0]));
      var tail := BracketedFields(tys[1..], rest);
      BracketedFieldsSame(tys[1..], rest);
      if xs != [] {
        FlatInit(tys[0], xs, true);
        ElisionIsBracketing(tys[0], xs, tail);
      } else {
        ZeroLeaves(tys[0]);
        assert rest == [] && tail == [];
      }
    }
  }

  // ---- Designated lists --------------------------------------------------------------------

  /** No later entry of a designated list names the same component. */
  ghost predicate IsLast(inits: seq<Designation>, k: nat)
    requires k < |inits|
  {
    forall m :: k < m < |inits| ==> inits[m].component != inits[k].component
  }

  /** Every entry of a designated list names a component that there is, with a value for it. */
  ghost predicate Designates(fields: seq<Ty>, inits: seq<Designation>)
  {
    forall d <- inits :: d.component < |fields| && InitValue(fields[d.component], d.item).Ok?
  }

  lemma {:induction false} AssignedExactly(fields: seq<Ty>, inits: seq<Designation>)
    ensures Assigned(fields, inits).Ok? <==> Designates(fields, inits)
    decreases |inits|
  {
    if inits != [] {
      hide InitValue, Designates;
      AssignedExactly(fields, inits[..|inits| - 1]);
      DesignatesSnoc(fields, inits);
    }
  }

  lemma DesignatesSnoc(fields: seq<Ty>, inits: seq<Designation>)
    requires inits != []
    ensures var n := |inits| - 1; var d := inits[n];
      Designates(fields, inits) <==>
        Designates(fields, inits[..n]) && d.component < |fields| && InitValue(fields[d.component], d.item).Ok?
  {
    hide InitValue;
    var n := |inits| - 1;
    assert inits == inits[..n] + [inits[n]];
  }

  lemma AssignedStep(fields: seq<Ty>, inits: seq<Designation>)
    requires inits != [] && Designates(fields, inits)
    ensures var n := |inits| - 1; var d := inits[n];
      && Designates(fields, inits[..n]) && Assigned(fields, inits[..n]).Ok? && Assigned(fields, inits).Ok?
      && d.component < |fields| && InitValue(fields[d.component], d.item).Ok?
      && Assigned(fields, inits).value ==
         Assigned(fields, inits[..n]).value[d.component := Some(InitValue(fields[d.component], d.item).value)]
  {
    AssignedExactly(fields, inits);
    AssignedExactly(fields, inits[..|inits| - 1]);
    assert inits[|inits| - 1] in inits;
  }

  /** The last entry for a component. */
  function LastFor(inits: seq<Designation>, i: nat): Option<Item> {
    if inits == [] then None
    else
      var n := |inits| - 1;
      if inits[n].component == i then Some(inits[n].item) else LastFor(inits[..n], i)
  }

  lemma {:induction false} LastForIsLast(inits: seq<Designation>, i: nat)
    ensures forall k :: 0 <= k < |inits| && IsLast(inits, k) && inits[k].component == i ==>
      LastFor(inits, i) == Some(inits[k].item)
    ensures (forall d <- inits :: d.component != i) ==> LastFor(inits, i) == None
  {
    if inits != [] {
      var n := |inits| - 1;
      var front := inits[..n];
      LastForIsLast(front, i);
      forall k | 0 <= k < |inits| && IsLast(inits, k) && inits[k].component == i
        ensures LastFor(inits, i) == Some(inits[k].item)
      {
        if k < n {
          assert front[k] == inits[k] && IsLast(front, k) && inits[n].component != i;
        }
      }
      assert inits[n] in inits && forall d <- front :: d in inits;
    }
  }

  /** What a designated list leaves in one member of a struct: what the last entry for it gives, and
      nothing if there is no entry. */
  lemma {:induction false} AssignedLast(fields: seq<Ty>, inits: seq<Designation>, i: nat)
    requires Designates(fields, inits) && i < |fields|
    ensures Assigned(fields, inits).Ok?
    ensures var last, got := LastFor(inits, i), Assigned(fields, inits).value[i];
      if last.None? then got == None
      else InitValue(fields[i], last.value).Ok? && got == Some(InitValue(fields[i], last.value).value)
    decreases |inits|
  {
    if inits != [] {
      hide InitValue;
      AssignedStep(fields, inits);
      AssignedLast(fields, inits[..|inits| - 1], i);
    }
  }

  /** A designated list for a struct succeeds exactly when each entry does. A component then gets
      the value of the last entry that names it, and one that none names is zero. */
  lemma LastDesignatorWins(fields: seq<Ty>, inits: seq<Designation>, i: nat)
    requires i < |fields|
    ensures InitDesignated(fields, inits).Ok? <==> Designates(fields, inits)
    ensures Designates(fields, inits) ==>
      InitDesignated(fields, inits).value.Members? && |InitDesignated(fields, inits).value.vals| == |fields|
    ensures Designates(fields, inits) ==>
      forall k :: 0 <= k < |inits| && IsLast(inits, k) && inits[k].component == i ==>
        InitDesignated(fields, inits).value.vals[i] == InitValue(fields[i], inits[k].item).value
    ensures Designates(fields, inits) && (forall d <- inits :: d.component != i) ==>
      InitDesignated(fields, inits).value.vals[i] == if ZeroOf(fields[i]).Some? then ZeroOf(fields[i]).value else Nil
  {
    AssignedExactly(fields, inits);
    if Designates(fields, inits) {
      AssignedLast(fields, inits, i);
      LastForIsLast(inits, i);
    }
  }

  /** The error of a designated list is that of its first entry that fails. */
  lemma FirstFailureDecides(fields: seq<Ty>, inits: seq<Designation>, k: nat)
    requires k < |inits| && Designates(fields, inits[..k]) && !Designates(fields, [inits[k]])
    ensures InitDesignated(fields, inits) ==
      if inits[k].component >= |fields| then Err(NoComponent)
      else Err(InitValue(fields[inits[k].component], inits[k].item).error)
  {
    var upTo := inits[..k + 1];
    assert upTo[..k] == inits[..k] && [inits[k]][0] == inits[k];
    AssignedExactly(fields, inits[..k]);
    ErrorsStay(fields, inits, k + 1);
  }

  // ---- Single values -----------------------------------------------------------------------

  /** An expression initialises an array, a struct or a union exactly if it has that very type, and
      then it is the value. */
  lemma AggregateFromExpression(ty: Ty, e: Item)
    requires !ty.Scalar? && e.Expr?
    ensures InitValue(ty, e) == if e.ty == ty then Ok(Same(e)) else Err(Incompatible)
  {}

  lemma SingleDesignation(fields: seq<Ty>, i: nat, item: Item, k: nat)
    requires i < |fields| && k < |fields|
    ensures var v, r := InitValue(fields[i], item), InitDesignated(fields, [Designation(i, item)]);
      if v.Err? then r == Err(v.error)
      else
        && r.Ok? && r.value.Members? && |r.value.vals| == |fields|
        && r.value.vals[k] == if k == i then v.value else OrZero(None, fields[k])
  {
    hide InitValue;
    var inits := [Designation(i, item)];
    assert inits[0] == Designation(i, item) && inits[..0] == [];
    assert Assigned(fields, []).Ok?;
  }

  /** An expression in n pairs of braces. */
  function InBraces(e: Item, n: nat): Item {
    if n == 0 then e else Braces([InBraces(e, n - 1)])
  }

  /** Around an expression for a scalar any number of braces is ignored. */
  lemma {:induction false} BracedScalar(e: Item, n: nat)
    requires e.Expr?
    ensures InitValue(Scalar, InBraces(e, n)) == Ok(Cast(e))
  {
    if n > 0 {
      BracedScalar(e, n - 1);
      assert InBraces(e, n).items[0] == InBraces(e, n - 1);
    }
  }

  /** An expression for a member: a scalar member takes any as it converts, in any number of braces,
      another member only one of its own type, unchanged. */
  lemma DesignatedExpression(fields: seq<Ty>, i: nat, e: Item, n: nat)
    requires i < |fields| && e.Expr? && (n == 0 || fields[i].Scalar?)
    ensures var r := InitDesignated(fields, [Designation(i, InBraces(e, n))]);
      if fields[i].Scalar? || e.ty == fields[i] then
        r.Ok? && r.value.Members? && |r.value.vals| == |fields|
        && r.value.vals[i] == if fields[i].Scalar? then Cast(e) else Same(e)
      else r == Err(Incompatible)
  {
    SingleDesignation(fields, i, InBraces(e, n), i);
    if fields[i].Scalar? {
      BracedScalar(e, n);
    }
  }

  /** A flat list in braces for a member that is no scalar fills the scalars of that member. */
  lemma DesignatedBraces(fields: seq<Ty>, i: nat, xs: seq<Item>)
    requires i < |fields| && !fields[i].Scalar? && Sized(fields[i]) && Flat(xs) && (xs != [] || fields[i].Array?)
    ensures var r := InitDesignated(fields, [Designation(i, Braces(xs))]);
      r.Ok? && r.value.Members? && |r.value.vals| == |fields| && Leaves(r.value.vals[i]) == Fill(xs, Slots(fields[i]))
  {
    hide Init, Fill, Leaves;
    SingleDesignation(fields, i, Braces(xs), i);
    FlatInit(fields[i], xs, false);
  }

  /** A designated list for a member: a struct takes it as it would be taken by itself, and any other
      member fails unless the list is empty. */
  lemma DesignatedNested(fields: seq<Ty>, i: nat, inner: seq<Designation>)
    requires i < |fields|
    ensures var r := InitDesignated(fields, [Designation(i, Designated(inner))]);
      if !fields[i].Struct? && inner != [] then r == Err(NotDesignatable)
      else if fields[i].Struct? && InitDesignated(fields[i].fields, inner).Err? then
        r == Err(InitDesignated(fields[i].fields, inner).error)
      else
        r.Ok? && r.value.Members? && |r.value.vals| == |fields|
        && r.value.vals[i] ==
           if fields[i].Struct? then InitDesignated(fields[i].fields, inner).value
           else if fields[i].Scalar? then Cast(Designated([])) else Elements([])
  {
    hide InitDesignated;
    SingleDesignation(fields, i, Designated(inner), i);
  }

  /** A designated list in a list stands for exactly one struct. */
  lemma DesignatedConsumesOne(fields: seq<Ty>, inits: seq<Designation>, tail: seq<Item>, goDown: bool)
    ensures Init(Struct(fields), [Designated(inits)] + tail, goDown).Done? <==> Designates(fields, inits)
    ensures Designates(fields, inits) ==>
      Init(Struct(fields), [Designated(inits)] + tail, goDown) == Done(InitDesignated(fields, inits).value, tail)
  {
    AssignedExactly(fields, inits);
    assert ([Designated(inits)] + tail)[1..] == tail;
  }

  /** What is left of an outcome when the list it leaves does not matter. */
  function ResultOf(o: Outcome): Result<Value> {
    match o
    case Done(v, _) => Ok(v)
    case Thrown(e) => Err(e)
  }

  /** An entry that a scalar takes as it stands. */
  ghost predicate TakenWhole(item: Item) {
    match item
    case Expr(_, _) => true
    case Braces(items) => |items| != 1
    case Designated(inits) => inits == []
  }

  /** An entry that means the same for one object by itself and in a list: for a scalar, one that is
      taken as it stands without braces, or in one pair of braces; for an array, a struct or a union
      a list in braces; and for a struct a designated list. */
  ghost predicate SameInList(ty: Ty, item: Item) {
    if ty.Scalar? then
      match item
      case Braces(items) => |items| == 1 && TakenWhole(items[0])
      case _ => TakenWhole(item)
    else item.Braces? || (item.Designated? && ty.Struct?)
  }

  lemma {:induction false} ScalarSameInList(item: Item)
    ensures InitValue(Scalar, item) == ResultOf(Init(Scalar, [item], true)) <==> SameInList(Scalar, item)
  {
    match item
    case Expr(_, _) =>
    case Designated(_) =>
    case Braces(items) =>
      if |items| == 1 {
        ScalarValueInside(items[0]);
      } else if items != [] {
        assert items[0] < item;
      }
  }

  /** What a scalar takes is the entry, or one inside it. */
  lemma {:induction false} ScalarValueInside(item: Item)
    ensures InitValue(Scalar, item) == Ok(Cast(item)) <==> TakenWhole(item)
    ensures InitValue(Scalar, item).Ok? ==>
      var v := InitValue(Scalar, item).value; v.Cast? && (v.item == item || WeightOf(v.item) < WeightOf(item))
    decreases WeightOf(item)
  {
    if item.Braces? && |item.items| == 1 {
      InnerWeighsLess(item.items);
      ScalarValueInside(item.items[0]);
    }
  }

  function AlternativeOf(r: Result<Value>): Result<Value> {
    match r
    case Ok(v) => Ok(Alternative(v))
    case Err(_) => r
  }

  /** Which member of a union a designated list initialises: the alternative is what the member gets
      from the same entry in a list without designators. */
  lemma DesignatedUnionIsMember(fields: seq<Ty>, j: nat, item: Item)
    requires j < |fields| && SameInList(fields[j], item)
    ensures InitDesignatedUnion(fields, [Designation(j, item)]) ==
      AlternativeOf(ResultOf(Init(fields[j], [item], true)))
  {
    var inits := [Designation(j, item)];
    assert inits[0].component == j && inits[0].item == item;
    if fields[j].Scalar? {
      ScalarSameInList(item);
    }
    assert [item][1..] == [];
  }

  /** A designated list in a list stands for exactly one union. It has to have one entry, for a
      member that there is, with a value for it, and the scalars of the union are that value's. */
  lemma DesignatedUnionConsumesOne(fields: seq<Ty>, inits: seq<Designation>, tail: seq<Item>, goDown: bool)
    ensures Init(Union(fields), [Designated(inits)] + tail, goDown).Done? <==> |inits| == 1 && Designates(fields, inits)
    ensures |inits| == 1 && Designates(fields, inits) ==>
      var o := Init(Union(fields), [Designated(inits)] + tail, goDown);
      o.rest == tail && Leaves(o.value) == Leaves(InitValue(fields[inits[0].component], inits[0].item).value)
    ensures !(|inits| == 1 && Designates(fields, inits)) ==>
      Init(Union(fields), [Designated(inits)] + tail, goDown) == Thrown(
        if |inits| != 1 then OneDesignation
        else if inits[0].component >= |fields| then NoComponent
        else InitValue(fields[inits[0].component], inits[0].item).error)
  {
    assert ([Designated(inits)] + tail)[1..] == tail;
    if |inits| == 1 {
      assert inits[0] in inits;
      assert forall d <- inits :: d == inits[0];
    }
  }

  // ---- Reading past the end ----------------------------------------------------------------

  /** No list in braces is empty, at any depth. */
  ghost predicate NonEmptyBraces(items: seq<Item>) {
    items == [] || (NoEmptyBraces(items[0]) && NonEmptyBraces(items[1..]))
  }

  ghost predicate NoEmptyBraces(item: Item) {
    match item
    case Expr(_, _) => true
    case Braces(inner) => inner != [] && NonEmptyBraces(inner)
    case Designated(inits) => forall d <- inits :: d.item < d && NoEmptyBraces(d.item)
  }

  /** As long as no list in braces is empty, no entry is read that is not there. */
  lemma {:induction false} NoReadPastEnd(items: seq<Item>, ty: Ty, goDown: bool)
    requires NonEmptyBraces(items)
    ensures var o := Init(ty, items, goDown); o.Done? ==> NonEmptyBraces(o.rest)
    ensures items != [] || ty.Array? || ty.OpenArray? ==> Init(ty, items, goDown) != Thrown(PastEnd)
    decreases Weight(items), ty, 1
  {
    if items != [] {
      InnerWeighsLess(items);
    }
    if goDown && items != [] && items[0].Braces? {
      NoReadPastEnd(items[0].items, ty, false);
    } else {
      match ty
      case Scalar =>
      case Array(elem, size) =>
        if 0 <= size <= MAX_SIZE {
          ElementsNonEmptyBraces(items, elem, size);
        }
      case OpenArray(elem) =>
        AllNonEmptyBraces(items, elem);
      case Struct(fields) =>
        if items != [] {
          if items[0].Designated? {
            DesignatedNonEmptyBraces(fields, items[0].inits);
          } else {
            FieldsNonEmptyBraces(items, fields);
          }
        }
      case Union(fields) =>
        if items != [] {
          if items[0].Designated? {
            DesignatedNonEmptyBraces(fields, items[0].inits);
          } else if fields != [] {
            NoReadPastEnd(items, fields[0], true);
          }
        }
    }
  }

  lemma {:induction false} ValueNonEmptyBraces(ty: Ty, item: Item)
    requires NoEmptyBraces(item)
    ensures InitValue(ty, item) != Err(PastEnd)
    decreases WeightOf(item), ty, 1
  {
    match item
    case Expr(_, _) =>
    case Braces(items) =>
      InnerWeighsLess(items);
      if ty.Scalar? {
        if |items| == 1 {
          ValueNonEmptyBraces(ty, items[0]);
        }
      } else {
        NoReadPastEnd(items, ty, false);
      }
    case Designated(inits) =>
      if ty.Struct? {
        DesignatedNonEmptyBraces(ty.fields, inits);
      }
  }

  lemma {:induction false} DesignatedNonEmptyBraces(fields: seq<Ty>, inits: seq<Designation>)
    requires forall d <- inits :: NoEmptyBraces(d.item)
    ensures Assigned(fields, inits) != Err(PastEnd)
    ensures InitDesignatedUnion(fields, inits) != Err(PastEnd)
    decreases WeightOfInits(inits), fields, 4
  {
    if inits != [] {
      var n := |inits| - 1;
      WeightOfPart(inits, n);
      DesignatedNonEmptyBraces(fields, inits[..n]);
      assert inits[n] in inits;
      if inits[n].component < |fields| {
        ValueNonEmptyBraces(fields[inits[n].component], inits[n].item);
      }
    }
  }

  lemma {:induction false} ElementsNonEmptyBraces(items: seq<Item>, elem: Ty, n: nat)
    requires NonEmptyBraces(items)
    ensures var o := InitElements(elem, n, items);
      o != ThrownAll(PastEnd) && (o.DoneAll? ==> NonEmptyBraces(o.left))
    decreases Weight(items), elem, 2, n
  {
    if n != 0 && items != [] {
      NoReadPastEnd(items, elem, true);
      var o := Init(elem, items, true);
      if o.Done? {
        ElementsNonEmptyBraces(o.rest, elem, n - 1);
      }
    }
  }

  lemma {:induction false} AllNonEmptyBraces(items: seq<Item>, elem: Ty)
    requires NonEmptyBraces(items)
    ensures InitAll(elem, items) != ThrownAll(PastEnd)
    decreases Weight(items), elem, 2, 0
  {
    if items != [] {
      NoReadPastEnd(items, elem, true);
      var o := Init(elem, items, true);
      if o.Done? && o.rest != items {
        AllNonEmptyBraces(o.rest, elem);
      }
    }
  }

  lemma {:induction false} FieldsNonEmptyBraces(items: seq<Item>, tys: seq<Ty>)
    requires NonEmptyBraces(items)
    ensures var o := InitFields(tys, items);
      o != ThrownAll(PastEnd) && (o.DoneAll? ==> NonEmptyBraces(o.left))
    decreases Weight(items), tys, 0
  {
    if tys != [] {
      if items == [] {
        FieldsNonEmptyBraces(items, tys[1..]);
      } else {
        NoReadPastEnd(items, tys[0], true);
        var o := Init(tys[0], items, true);
        if o.Done? {
          FieldsNonEmptyBraces(o.rest, tys[1..]);
        }
      }
    }
  }

  /** No designated list, at any depth. */
  ghost predicate Undesignated(items: seq<Item>) {
    items == [] || (UndesignatedItem(items[0]) && Undesignated(items[1..]))
  }

  ghost predicate UndesignatedItem(item: Item) {
    match item
    case Expr(_, _) => true
    case Braces(inner) => Undesignated(inner)
    case Designated(_) => false
  }

  /** An object whose initialisation from a list comes to an empty list in braces: scalars take
      the entries before it, and structs lead down to it. */
  ghost function ReaderFields(items: seq<Item>): seq<Ty>
    requires Undesignated(items) && !NonEmptyBraces(items)
  {
    if NoEmptyBraces(items[0]) then [Scalar] + ReaderFields(items[1..])
    else
      match items[0]
      case Braces(inner) =>
        assert UndesignatedItem(items[0]) && (inner != [] ==> !NonEmptyBraces(inner));
        [if inner == [] then Scalar else Struct(ReaderFields(inner))]
      case _ => []
  }

  lemma {:induction false} ReaderReads(items: seq<Item>)
    requires Undesignated(items) && !NonEmptyBraces(items)
    ensures InitFields(ReaderFields(items), items) == ThrownAll(PastEnd)
    decreases Weight(items)
  {
    var tys, item := ReaderFields(items), items[0];
    InnerWeighsLess(items);
    if NoEmptyBraces(item) {
      ReaderReads(items[1..]);
      assert tys[0] == Scalar && tys[1..] == ReaderFields(items[1..]);
      ScalarTakesOne(items);
    } else {
      assert UndesignatedItem(item) && item.Braces?;
      if item.items != [] {
        ReaderReads(item.items);
        assert UndesignatedItem(item.items[0]);
        assert Init(tys[0], item.items, false) == Thrown(PastEnd);
      }
      assert Init(tys[0], items, true) == Thrown(PastEnd);
    }
  }

  lemma ScalarTakesOne(items: seq<Item>)
    requires items != [] && NoEmptyBraces(items[0]) && UndesignatedItem(items[0])
    ensures Init(Scalar, items, true).Done? && Init(Scalar, items, true).rest == items[1..]
  {
    if items[0].Braces? {
      assert Init(Scalar, items[0].items, false).Done?;
    }
  }

  /** A list without designators is safe for every object type exactly if no list in braces in
      it is empty: otherwise there is a type for which an entry is read that is not there. */
  lemma SafeExactlyWithoutEmptyBraces(items: seq<Item>)
    requires Undesignated(items) && items != []
    ensures NonEmptyBraces(items) <==> forall ty, goDown :: Init(ty, items, goDown) != Thrown(PastEnd)
  {
    if NonEmptyBraces(items) {
      forall ty, goDown ensures Init(ty, items, goDown) != Thrown(PastEnd) {
        NoReadPastEnd(items, ty, goDown);
      }
    } else {
      ReaderReads(items);
      assert UndesignatedItem(items[0]);
      var reader := Struct(ReaderFields(items));
      assert Init(reader, items, false) == Thrown(PastEnd);
      assert !(forall ty, goDown :: Init(ty, items, goDown) != Thrown(PastEnd));
    }
  }

  /** A designated list that sets the first component to a scalar and then to an empty list. */
  function SetTwice(): seq<Item> {
    [Designated([Designation(0, Expr(0, Scalar)), Designation(0, Braces([]))])]
  }

  /** With designators an empty list in braces may be safe for every type: a component that is no
      scalar fails at the first entry, and a scalar takes the empty list as it is. */
  lemma {:induction false} DesignatedListMayBeSafe(ty: Ty, goDown: bool)
    ensures !NonEmptyBraces(SetTwice()) && Init(ty, SetTwice(), goDown) != Thrown(PastEnd)
    ensures var o := Init(ty, SetTwice(), goDown); o.Done? ==> o.rest == SetTwice() || o.rest == []
    decreases ty, 0, 0
  {
    var items := SetTwice();
    var inits := items[0].inits;
    assert items[1..] == [] && inits[1] in inits && !NoEmptyBraces(inits[1].item);
    match ty
    case Scalar =>
    case Array(elem, size) =>
      if 0 <= size <= MAX_SIZE {
        SafeElements(elem, size);
      }
    case OpenArray(elem) =>
      DesignatedListMayBeSafe(elem, true);
      assert InitAll(elem, []) == DoneAll([], []);
    case Struct(fields) =>
      SetTwiceAssigned(fields);
    case Union(_) =>
  }

  lemma {:induction false} SafeElements(elem: Ty, n: nat)
    ensures InitElements(elem, n, SetTwice()) != ThrownAll(PastEnd)
    ensures var o := InitElements(elem, n, SetTwice()); o.DoneAll? ==> o.left == SetTwice() || o.left == []
    decreases elem, 1, n
  {
    if n > 0 {
      DesignatedListMayBeSafe(elem, true);
      SafeElements(elem, n - 1);
      ElementsOfNothing(elem, n - 1);
    }
  }

  lemma ElementsOfNothing(elem: Ty, n: nat)
    ensures InitElements(elem, n, []) != ThrownAll(PastEnd)
    ensures InitElements(elem, n, []).DoneAll? ==> InitElements(elem, n, []).left == []
  {}

  lemma SetTwiceAssigned(fields: seq<Ty>)
    ensures Assigned(fields, SetTwice()[0].inits) != Err(PastEnd)
  {
    var inits := SetTwice()[0].inits;
    assert inits[..1] == [inits[0]] && inits[..1][..0] == [];
    assert Assigned(fields, []).Ok?;
    if fields != [] && fields[0].Scalar? {
      assert InitValue(fields[0], inits[0].item).Ok? && Assigned(fields, inits[..1]).Ok?;
      assert InitValue(fields[0], inits[1].item) == Ok(Cast(inits[1].item));
    } else if fields != [] {
      assert InitValue(fields[0], inits[0].item) == Err(Incompatible);
      assert Assigned(fields, inits[..1]) == Err(Incompatible);
    } else {
      assert Assigned(fields, inits[..1]) == Err(NoComponent);
    }
  }

  /** An empty list in braces for a scalar, a struct or a union does read past the end. */
  lemma EmptyBracesPastEnd(ty: Ty, tail: seq<Item>)
    ensures Init(ty, [Braces([])] + tail, true) == Thrown(PastEnd) <==> ty.Scalar? || ty.Struct? || ty.Union?
  {
    BracesConsumeOne(ty, [], tail);
    if ty.Array? || ty.OpenArray? {
      NoReadPastEnd([], ty, false);
    }
  }
}
