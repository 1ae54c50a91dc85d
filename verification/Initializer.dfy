/** Aggregate initialisers (c_typecheck_initializer.cpp): an initialiser list is consumed through
    one mutable cursor by mutually recursive functions. The meaning is given without a cursor,
    as what remains of a list, following section 6.7.9 of ISO/IEC 9899:2011 except that, as in the
    code, an expression of struct type within a list goes to the first scalar of the struct. */
module Initializer {
  import opened Options

  /** Object types: a struct and a union by the types of their members, an array by its element
      type and the size that was computed for it, or with its size still open. */
  datatype Ty =
    | Scalar
    | Array(elem: Ty, size: int)
    | OpenArray(elem: Ty)
    | Struct(fields: seq<Ty>)
    | Union(fields: seq<Ty>)

  /** An entry of an initialiser list: an expression of some type, a list in braces, or a list in
      braces whose entries name the component they are for, by its position. */
  datatype Item = Expr(id: nat, ty: Ty) | Braces(items: seq<Item>) | Designated(inits: seq<Designation>)

  datatype Designation = Designation(component: nat, item: Item)

  /** What initialising yields. `Repeat` is the array_of constant that zero initialisation uses;
      `Cast` stands for the implicit conversion of an entry to the scalar type, `Same` for an
      expression taken as it is, `Nil` for an operand that is left unset. */
  datatype Value =
    | Cast(item: Item)
    | Same(item: Item)
    | Nil
    | Zero
    | Elements(vals: seq<Value>)
    | Repeat(val: Value, n: nat)
    | Members(vals: seq<Value>)
    | Alternative(val: Value)

  /** Why initialising gives up. `PastEnd` stands for reading an entry that is not there,
      `OneDesignation` for the assertion that a designated list for a union has one entry, and
      `Diverges` for the loop over an open array, whose elements consume nothing, going on for
      ever. */
  datatype Error =
    | NegativeSize | TooLarge | EmptyUnion | NoZero | PastEnd
    | NoComponent | NotDesignatable | Incompatible | OneDesignation | Diverges

  datatype Result<T> = Ok(value: T) | Err(error: Error)

  datatype Outcome = Done(value: Value, rest: seq<Item>) | Thrown(error: Error)

  datatype Outcomes = DoneAll(vals: seq<Value>, left: seq<Item>) | ThrownAll(error: Error)

  const MAX_SIZE := 1000000

  /** All entries, at all depths. */
  function Weight(items: seq<Item>): nat {
    if items == [] then 0 else WeightOf(items[0]) + Weight(items[1..])
  }

  function WeightOf(item: Item): (w: nat)
    ensures w >= 1
  {
    match item
    case Expr(_, _) => 1
    case Braces(inner) => 1 + Weight(inner)
    case Designated(inits) => 1 + WeightOfInits(inits)
  }

  function WeightOfInits(inits: seq<Designation>): nat {
    if inits == [] then 0
    else
      assert inits[0].item < inits[0];
      WeightOf(inits[0].item) + WeightOfInits(inits[1..])
  }

  /** What is inside the first entry weighs less than the entries. */
  lemma InnerWeighsLess(items: seq<Item>)
    requires items != []
    ensures Weight(items) == WeightOf(items[0]) + Weight(items[1..])
    ensures items[0].Braces? ==> WeightOf(items[0]) == 1 + Weight(items[0].items)
    ensures items[0].Designated? ==> WeightOf(items[0]) == 1 + WeightOfInits(items[0].inits)
  {}

  /** A part of the entries weighs at most as much as all of them. */
  lemma {:induction false} WeightOfPart(inits: seq<Designation>, n: nat)
    requires n < |inits|
    ensures WeightOfInits(inits[..n]) + WeightOf(inits[n].item) <= WeightOfInits(inits)
  {
    if n > 0 {
      WeightOfPart(inits[1..], n - 1);
      assert inits[..n][1..] == inits[1..][..n - 1];
    }
  }

  /** The scalars of an object that a list without braces can set. */
  function Slots(ty: Ty): nat {
    match ty
    case Scalar => 1
    case Array(elem, size) => if size <= 0 then 0 else size * Slots(elem)
    case OpenArray(elem) => Slots(elem)
    case Struct(fields) => SlotsAll(fields)
    case Union(fields) => if fields == [] then 0 else Slots(fields[0])
  }

  function SlotsAll(tys: seq<Ty>): nat {
    if tys == [] then 0 else Slots(tys[0]) + SlotsAll(tys[1..])
  }

  /** The element types of open arrays have a slot: otherwise the loop over an open array would
      not consume anything. */
  ghost predicate Progressive(ty: Ty) {
    match ty
    case Scalar => true
    case Array(elem, _) => Progressive(elem)
    case OpenArray(elem) => Slots(elem) >= 1 && Progressive(elem)
    case Struct(fields) => forall f <- fields :: Progressive(f)
    case Union(fields) => forall f <- fields :: Progressive(f)
  }

  function Repeated<T>(x: T, n: nat): (r: seq<T>)
    ensures |r| == n && forall k :: 0 <= k < n ==> r[k] == x
  {
    seq(n, _ => x)
  }

  /** zero_initializer; None stands for its failure. */
  function ZeroOf(ty: Ty): Option<Value> {
    match ty
    case Scalar => Some(Zero)
    case Array(elem, size) =>
      var z := ZeroOf(elem);
      if z.None? || size < 0 then None else Some(Repeat(z.value, size))
    case OpenArray(_) => None
    case Struct(fields) =>
      var zs := ZerosOf(fields);
      if zs.None? then None else Some(Members(zs.value))
    case Union(fields) =>
      if fields == [] then None
      else
        var z := ZeroOf(fields[0]);
        if z.None? then None else Some(Alternative(z.value))
  }

  function ZerosOf(tys: seq<Ty>): (r: Option<seq<Value>>)
    ensures r.Some? ==> |r.value| == |tys|
  {
    if tys == [] then Some([])
    else
      var z := ZeroOf(tys[0]);
      var zs := ZerosOf(tys[1..]);
      if z.None? || zs.None? then None else Some([z.value] + zs.value)
  }

  /** Nothing was consumed, or some entries from the front. */
  predicate Consumed(rest: seq<Item>, items: seq<Item>) {
    rest == items || Weight(rest) < Weight(items)
  }

  /** Initialises one object from the front of a list. With `goDown` an entry in braces stands
      for the whole object, and what it leaves over is ignored. */
  function Init(ty: Ty, items: seq<Item>, goDown: bool): (r: Outcome)
    ensures Progressive(ty) ==> r != Thrown(Diverges)
    ensures r.Done? ==> Consumed(r.rest, items)
    ensures r.Done? && Slots(ty) >= 1 && items != [] ==> r.rest != items
    decreases Weight(items), ty, 1
  {
    if goDown && items != [] && items[0].Braces? then
      InnerWeighsLess(items);
      match Init(ty, items[0].items, false)
      case Done(v, _) => Done(v, items[1..])
      case Thrown(e) => Thrown(e)
    else
      match ty
      case Array(elem, size) =>
        if size < 0 then Thrown(NegativeSize)
        else if size > MAX_SIZE then Thrown(TooLarge)
        else
          SlotsOfArray(elem, size);
          (match InitElements(elem, size, items)
           case DoneAll(vs, rest) => Done(Elements(vs), rest)
           case ThrownAll(e) => Thrown(e))
      case OpenArray(elem) =>
        (match InitAll(elem, items)
         case DoneAll(vs, rest) => Done(Elements(vs), rest)
         case ThrownAll(e) => Thrown(e))
      case Struct(fields) =>
        if items == [] then Thrown(PastEnd)
        else if items[0].Designated? then
          InnerWeighsLess(items);
          (match InitDesignated(fields, items[0].inits)
           case Ok(v) => Done(v, items[1..])
           case Err(e) => Thrown(e))
        else
          (match InitFields(fields, items)
           case DoneAll(vs, rest) => Done(Members(vs), rest)
           case ThrownAll(e) => Thrown(e))
      case Union(fields) =>
        if items == [] then Thrown(PastEnd)
        else if items[0].Designated? then
          InnerWeighsLess(items);
          (match InitDesignatedUnion(fields, items[0].inits)
           case Ok(v) => Done(v, items[1..])
           case Err(e) => Thrown(e))
        else if fields == [] then Thrown(EmptyUnion)
        else
          (match Init(fields[0], items, true)
           case Done(v, rest) => Done(Alternative(v), rest)
           case Thrown(e) => Thrown(e))
      case Scalar =>
        if items == [] then Thrown(PastEnd) else Done(Cast(items[0]), items[1..])
  }

  lemma SlotsOfArray(elem: Ty, size: int)
    requires size >= 0
    ensures Slots(Array(elem, size)) == size * Slots(elem)
    ensures Slots(Array(elem, size)) >= 1 ==> size >= 1 && Slots(elem) >= 1
  {}

  /** n elements of an array: zeros once the list is used up. */
  function InitElements(elem: Ty, n: nat, items: seq<Item>): (r: Outcomes)
    ensures Progressive(elem) ==> r != ThrownAll(Diverges)
    ensures r.DoneAll? ==> |r.vals| == n && Consumed(r.left, items)
    ensures r.DoneAll? && Slots(elem) >= 1 && n >= 1 && items != [] ==> r.left != items
    decreases Weight(items), elem, 2, n
  {
    if n == 0 then DoneAll([], items)
    else if items == [] then
      var z := ZeroOf(elem);
      if z.None? then ThrownAll(NoZero) else DoneAll(Repeated(z.value, n), items)
    else
      match Init(elem, items, true)
      case Thrown(e) => ThrownAll(e)
      case Done(v, rest) =>
        match InitElements(elem, n - 1, rest)
        case ThrownAll(e) => ThrownAll(e)
        case DoneAll(vs, left) => DoneAll([v] + vs, left)
  }

  /** Elements of an open array, until the list is used up. */
  function InitAll(elem: Ty, items: seq<Item>): (r: Outcomes)
    ensures Progressive(elem) && Slots(elem) >= 1 ==> r != ThrownAll(Diverges)
    ensures r.DoneAll? ==> r.left == []
    decreases Weight(items), elem, 2, 0
  {
    if items == [] then DoneAll([], items)
    else
      match Init(elem, items, true)
      case Thrown(e) => ThrownAll(e)
      case Done(v, rest) =>
        if rest == items then ThrownAll(Diverges)
        else match InitAll(elem, rest)
        case ThrownAll(e) => ThrownAll(e)
        case DoneAll(vs, left) => DoneAll([v] + vs, left)
  }

  /** The members of a struct: zeros once the list is used up. */
  function InitFields(tys: seq<Ty>, items: seq<Item>): (r: Outcomes)
    ensures (forall t <- tys :: Progressive(t)) ==> r != ThrownAll(Diverges)
    ensures r.DoneAll? ==> |r.vals| == |tys| && Consumed(r.left, items)
    ensures r.DoneAll? && SlotsAll(tys) >= 1 && items != [] ==> r.left != items
    decreases Weight(items), tys, 0
  {
    if tys == [] then DoneAll([], items)
    else if items == [] then
      var z := ZeroOf(tys[0]);
      if z.None? then ThrownAll(NoZero)
      else
        match InitFields(tys[1..], items)
        case ThrownAll(e) => ThrownAll(e)
        case DoneAll(vs, left) => DoneAll([z.value] + vs, left)
    else
      match Init(tys[0], items, true)
      case Thrown(e) => ThrownAll(e)
      case Done(v, rest) =>
        match InitFields(tys[1..], rest)
        case ThrownAll(e) => ThrownAll(e)
        case DoneAll(vs, left) => DoneAll([v] + vs, left)
  }

  /** Initialises one object from a single entry: do_initializer_rec on a value. */
  function InitValue(ty: Ty, item: Item): (r: Result<Value>)
    ensures Progressive(ty) ==> r != Err(Diverges)
    decreases WeightOf(item), ty, 1
  {
    match item
    case Designated(inits) =>
      if ty.Struct? then InitDesignated(ty.fields, inits)
      else if inits != [] then Err(NotDesignatable)
      else if ty.Scalar? then Ok(Cast(item))
      else Ok(Elements([]))
    case Braces(items) =>
      if ty.Scalar? then
        if |items| == 1 then
          InnerWeighsLess(items);
          InitValue(ty, items[0])
        else Ok(Cast(item))
      else
        (match Init(ty, items, false)
         case Done(v, _) => Ok(v)
         case Thrown(e) => Err(e))
    case Expr(_, t) =>
      if ty.Scalar? then Ok(Cast(item)) else if t == ty then Ok(Same(item)) else Err(Incompatible)
  }

  /** The members that a designated list sets, in the order of the list. */
  function Assigned(fields: seq<Ty>, inits: seq<Designation>): (r: Result<seq<Option<Value>>>)
    ensures (forall f <- fields :: Progressive(f)) ==> r != Err(Diverges)
    ensures r.Ok? ==> |r.value| == |fields|
    decreases WeightOfInits(inits), fields, 2
  {
    if inits == [] then Ok(Repeated(None, |fields|))
    else
      var n := |inits| - 1;
      var d := inits[n];
      WeightOfPart(inits, n);
      match Assigned(fields, inits[..n])
      case Err(e) => Err(e)
      case Ok(vals) =>
        if d.component >= |fields| then Err(NoComponent)
        else
          match InitValue(fields[d.component], d.item)
          case Err(e) => Err(e)
          case Ok(v) => Ok(vals[d.component := Some(v)])
  }

  /** The value of a member that a designated list may have left out: it stays unset where zero
      initialisation fails. */
  function OrZero(v: Option<Value>, ty: Ty): Value {
    if v.Some? then v.value
    else
      var z := ZeroOf(ty);
      if z.Some? then z.value else Nil
  }

  function OrZeros(vals: seq<Option<Value>>, fields: seq<Ty>): (r: seq<Value>)
    requires |vals| == |fields|
    ensures |r| == |fields| && forall i :: 0 <= i < |r| ==> r[i] == OrZero(vals[i], fields[i])
  {
    seq(|vals|, i requires 0 <= i < |vals| => OrZero(vals[i], fields[i]))
  }

  function InitDesignated(fields: seq<Ty>, inits: seq<Designation>): (r: Result<Value>)
    ensures (forall f <- fields :: Progressive(f)) ==> r != Err(Diverges)
    decreases WeightOfInits(inits), fields, 3
  {
    match Assigned(fields, inits)
    case Err(e) => Err(e)
    case Ok(vals) => Ok(Members(OrZeros(vals, fields)))
  }

  function InitDesignatedUnion(fields: seq<Ty>, inits: seq<Designation>): (r: Result<Value>)
    ensures (forall f <- fields :: Progressive(f)) ==> r != Err(Diverges)
    decreases WeightOfInits(inits), fields, 3
  {
    if |inits| != 1 then Err(OneDesignation)
    else if inits[0].component >= |fields| then Err(NoComponent)
    else
      match InitValue(fields[inits[0].component], inits[0].item)
      case Err(e) => Err(e)
      case Ok(v) => Ok(Alternative(v))
  }

  // ---- The cursor --------------------------------------------------------------------------

  /** init_statet: a list and a position in it that the initialising functions share. */
  class InitState {
    const entries: seq<Item>
    var pos: nat

    ghost predicate Valid()
      reads this
    {
      pos <= |entries|
    }

    /** What the cursor has not passed yet. */
    ghost function Rest(): seq<Item>
      requires Valid()
      reads this
    {
      entries[pos..]
    }

    constructor (entries: seq<Item>)
      ensures Valid() && Rest() == entries
    {
      this.entries := entries;
      pos := 0;
    }

    method Remaining() returns (n: nat)
      requires Valid()
      ensures n == |Rest()|
    {
      n := |entries| - pos;
    }

    method HasNext() returns (b: bool)
      requires Valid()
      ensures b <==> Rest() != []
    {
      b := pos < |entries|;
    }

    method Advance()
      requires Valid() && Rest() != []
      modifies this
      ensures Valid() && Rest() == old(Rest())[1..]
    {
      pos := pos + 1;
    }

    method Current() returns (item: Item)
      requires Valid() && Rest() != []
      ensures item == Rest()[0]
    {
      item := entries[pos];
    }
  }

  /** What a call that started with `items` left to read has to do to meet an outcome. */
  ghost predicate Meets(r: Result<Value>, rest: seq<Item>, o: Outcome) {
    match o
    case Done(v, left) => r == Ok(v) && rest == left
    case Thrown(e) => r == Err(e)
  }

  ghost predicate MeetsAll(r: Result<seq<Value>>, rest: seq<Item>, o: Outcomes) {
    match o
    case DoneAll(vs, left) => r == Ok(vs) && rest == left
    case ThrownAll(e) => r == Err(e)
  }

  /** do_initializer_rec on a cursor. */
  method DoInitializerRec(state: InitState, ty: Ty, goDown: bool) returns (r: Result<Value>)
    requires state.Valid()
    modifies state
    ensures state.Valid() && Meets(r, state.Rest(), Init(ty, old(state.Rest()), goDown))
    decreases Weight(state.Rest()), ty, 1
  {
    ghost var items := state.Rest();
    var more := state.HasNext();
    if goDown && more {
      var item := state.Current();
      if item.Braces? {
        InnerWeighsLess(state.Rest());
        var inner := new InitState(item.items);
        state.Advance();
        r := DoInitializerRec(inner, ty, false);
        return;
      }
    }
    match ty
    case Array(elem, size) =>
      r := DoInitializerArray(state, elem, size);
    case OpenArray(elem) =>
      r := DoInitializerIncompleteArray(state, elem);
    case Struct(fields) =>
      r := DoInitializerStruct(state, fields);
    case Union(fields) =>
      r := DoInitializerUnion(state, fields);
    case Scalar =>
      if !more {
        return Err(PastEnd);
      }
      var item := state.Current();
      state.Advance();
      r := Ok(Cast(item));
  }

  method DoInitializerArray(state: InitState, elem: Ty, size: int) returns (r: Result<Value>)
    requires state.Valid()
    modifies state
    ensures state.Valid() && Meets(r, state.Rest(), Init(Array(elem, size), old(state.Rest()), false))
    decreases Weight(state.Rest()), Array(elem, size), 0
  {
    if size < 0 {
      return Err(NegativeSize);
    }
    if size > MAX_SIZE {
      return Err(TooLarge);
    }
    var vals := GrabElements(state, elem, size);
    r := if vals.Err? then Err(vals.error) else Ok(Elements(vals.value));
  }

  /** The loop over the elements of an array. */
  method GrabElements(state: InitState, elem: Ty, size: nat) returns (r: Result<seq<Value>>)
    requires state.Valid()
    modifies state
    ensures state.Valid() && MeetsAll(r, state.Rest(), InitElements(elem, size, old(state.Rest())))
    decreases Weight(state.Rest()), elem, 2
  {
    hide Weight, WeightOf, Slots, SlotsAll, InitValue, InitElements, Init, Repeated;
    ghost var items := state.Rest();
    var vals: seq<Value> := [];
    var pos := 0;
    PrependNothing(InitElements(elem, size, items));
    while pos < size
      invariant 0 <= pos <= size && |vals| == pos && state.Valid() && Consumed(state.Rest(), items)
      invariant InitElements(elem, size, items) == Prepend(vals, InitElements(elem, size - pos, state.Rest()))
    {
      var more := state.HasNext();
      ElementsTake(elem, size - pos, state.Rest());
      if !more {
        var z := ZeroOf(elem);
        if z.None? {
          return Err(NoZero);
        }
        vals := PadWith(vals, z.value, size);
        return Ok(vals);
      }
      var e := DoInitializerRec(state, elem, true);
      if e.Err? {
        return Err(e.error);
      }
      PrependStep(vals, e.value, InitElements(elem, size - pos - 1, state.Rest()));
      vals := vals + [e.value];
      pos := pos + 1;
    }
    ElementsTaken(elem, state.Rest());
    assert vals + [] == vals;
    r := Ok(vals);
  }

  /** Fills up a list of operands with one value. */
  method PadWith(vals: seq<Value>, v: Value, size: nat) returns (r: seq<Value>)
    requires |vals| <= size
    ensures r == vals + Repeated(v, size - |vals|)
  {
    r := vals;
    while |r| < size
      invariant |vals| <= |r| <= size
      invariant r == vals + Repeated(v, |r| - |vals|)
    {
      assert Repeated(v, |r| - |vals| + 1) == Repeated(v, |r| - |vals|) + [v];
      r := r + [v];
    }
  }

  lemma ElementsTaken(elem: Ty, items: seq<Item>)
    ensures InitElements(elem, 0, items) == DoneAll([], items)
  {}

  lemma ElementsTake(elem: Ty, n: nat, items: seq<Item>)
    requires n > 0
    ensures var o := InitElements(elem, n, items);
      if items == [] then
        o == if ZeroOf(elem).None? then ThrownAll(NoZero) else DoneAll(Repeated(ZeroOf(elem).value, n), [])
      else
        match Init(elem, items, true)
        case Thrown(e) => o == ThrownAll(e)
        case Done(v, rest) => o == Prepend([v], InitElements(elem, n - 1, rest))
  {}

  function Prepend(vals: seq<Value>, o: Outcomes): Outcomes {
    match o
    case DoneAll(vs, left) => DoneAll(vals + vs, left)
    case ThrownAll(e) => o
  }

  lemma PrependNothing(o: Outcomes)
    ensures Prepend([], o) == o
  {
    if o.DoneAll? {
      assert [] + o.vals == o.vals;
    }
  }

  lemma PrependStep(vals: seq<Value>, v: Value, o: Outcomes)
    ensures Prepend(vals, Prepend([v], o)) == Prepend(vals + [v], o)
  {
    if o.DoneAll? {
      assert vals + ([v] + o.vals) == vals + [v] + o.vals;
    }
  }

  method DoInitializerIncompleteArray(state: InitState, elem: Ty) returns (r: Result<Value>)
    requires state.Valid()
    modifies state
    ensures state.Valid() && Meets(r, state.Rest(), Init(OpenArray(elem), old(state.Rest()), false))
    decreases Weight(state.Rest()), OpenArray(elem), 0
  {
    hide Weight, WeightOf, Slots, SlotsAll, InitValue, InitAll;
    ghost var items := state.Rest();
    var vals: seq<Value> := [];
    var more := state.HasNext();
    PrependNothing(InitAll(elem, items));
    while more
      invariant state.Valid() && Consumed(state.Rest(), items) && (more <==> state.Rest() != [])
      invariant InitAll(elem, items) == Prepend(vals, InitAll(elem, state.Rest()))
      decreases Weight(state.Rest())
    {
      ghost var rest := state.Rest();
      AllTake(elem, rest);
      var before := state.pos;
      var e := DoInitializerRec(state, elem, true);
      if e.Err? {
        return Err(e.error);
      }
      if state.pos == before {
        // Every further turn is this one again.
        return Err(Diverges);
      }
      assert |state.Rest()| != |rest|;
      PrependStep(vals, e.value, InitAll(elem, state.Rest()));
      vals := vals + [e.value];
      more := state.HasNext();
    }
    AllTaken(elem);
    assert vals + [] == vals;
    r := Ok(Elements(vals));
  }

  lemma AllTaken(elem: Ty)
    ensures InitAll(elem, []) == DoneAll([], [])
  {}

  lemma AllTake(elem: Ty, items: seq<Item>)
    requires items != []
    ensures var o := Init(elem, items, true);
      InitAll(elem, items) ==
        if o.Thrown? then ThrownAll(o.error)
        else if o.rest == items then ThrownAll(Diverges)
        else Prepend([o.value], InitAll(elem, o.rest))
  {}

  method DoInitializerStruct(state: InitState, fields: seq<Ty>) returns (r: Result<Value>)
    requires state.Valid()
    modifies state
    ensures state.Valid() && Meets(r, state.Rest(), Init(Struct(fields), old(state.Rest()), false))
    decreases Weight(state.Rest()), Struct(fields), 0
  {
    hide Weight, WeightOf, Slots, SlotsAll, InitValue;
    ghost var items := state.Rest();
    var some := state.HasNext();
    if !some {
      return Err(PastEnd);
    }
    var first := state.Current();
    if first.Designated? {
      InnerWeighsLess(state.Rest());
      r := DoDesignatedInitializer(fields, first.inits);
      state.Advance();
      return;
    }
    var vals: seq<Value> := [];
    var i := 0;
    assert fields[0..] == fields;
    PrependNothing(InitFields(fields, items));
    while i < |fields|
      invariant 0 <= i <= |fields| && |vals| == i && state.Valid() && Consumed(state.Rest(), items)
      invariant InitFields(fields, items) == Prepend(vals, InitFields(fields[i..], state.Rest()))
    {
      assert fields[i..][1..] == fields[i + 1..] && fields[i] in fields;
      var more := state.HasNext();
      if more {
        var e := DoInitializerRec(state, fields[i], true);
        if e.Err? {
          return Err(e.error);
        }
        PrependStep(vals, e.value, InitFields(fields[i + 1..], state.Rest()));
        vals := vals + [e.value];
      } else {
        var z := ZeroOf(fields[i]);
        if z.None? {
          return Err(NoZero);
        }
        PrependStep(vals, z.value, InitFields(fields[i + 1..], state.Rest()));
        vals := vals + [z.value];
      }
      i := i + 1;
    }
    assert fields[i..] == [] && vals + [] == vals;
    r := Ok(Members(vals));
  }

  method DoInitializerUnion(state: InitState, fields: seq<Ty>) returns (r: Result<Value>)
    requires state.Valid()
    modifies state
    ensures state.Valid() && Meets(r, state.Rest(), Init(Union(fields), old(state.Rest()), false))
    decreases Weight(state.Rest()), Union(fields), 0
  {
    var more := state.HasNext();
    if !more {
      return Err(PastEnd);
    }
    var first := state.Current();
    if first.Designated? {
      InnerWeighsLess(state.Rest());
      r := DoDesignatedUnionInitializer(fields, first.inits);
      state.Advance();
      return;
    }
    if fields == [] {
      return Err(EmptyUnion);
    }
    var v := DoInitializerRec(state, fields[0], true);
    r := if v.Err? then Err(v.error) else Ok(Alternative(v.value));
  }

  /** do_initializer_rec on a value. */
  method DoInitializerValue(ty: Ty, item: Item) returns (r: Result<Value>)
    ensures r == InitValue(ty, item)
    decreases WeightOf(item), ty, 1
  {
    match item
    case Designated(inits) =>
      if ty.Struct? {
        r := DoDesignatedInitializer(ty.fields, inits);
      } else if inits != [] {
        r := Err(NotDesignatable);
      } else if ty.Scalar? {
        r := Ok(Cast(item));
      } else {
        r := Ok(Elements([]));
      }
    case Braces(items) =>
      if !ty.Scalar? {
        var state := new InitState(items);
        r := DoInitializerRec(state, ty, false);
      } else if |items| == 1 {
        InnerWeighsLess(items);
        r := DoInitializerValue(ty, items[0]);
      } else {
        r := Ok(Cast(item));
      }
    case Expr(_, t) =>
      r := if ty.Scalar? then Ok(Cast(item)) else if t == ty then Ok(Same(item)) else Err(Incompatible);
  }

  method DoDesignatedInitializer(fields: seq<Ty>, inits: seq<Designation>) returns (r: Result<Value>)
    ensures r == InitDesignated(fields, inits)
    decreases WeightOfInits(inits), fields, 3
  {
    var vals: seq<Option<Value>> := Repeated(None, |fields|);
    var k := 0;
    while k < |inits|
      invariant 0 <= k <= |inits| && |vals| == |fields|
      invariant Assigned(fields, inits[..k]) == Ok(vals)
    {
      WeightOfPart(inits, k);
      assert inits[..k + 1][..k] == inits[..k];
      var number := inits[k].component;
      if number >= |fields| {
        ErrorsStay(fields, inits, k + 1);
        return Err(NoComponent);
      }
      var v := DoInitializerValue(fields[number], inits[k].item);
      if v.Err? {
        ErrorsStay(fields, inits, k + 1);
        return v;
      }
      vals := vals[number := Some(v.value)];
      k := k + 1;
    }
    assert inits[..k] == inits;
    ghost var written := vals;
    var i := 0;
    while i < |fields|
      invariant 0 <= i <= |fields| && |vals| == |fields|
      invariant forall m :: 0 <= m < i ==> vals[m] == Some(OrZero(written[m], fields[m]))
      invariant forall m :: i <= m < |fields| ==> vals[m] == written[m]
    {
      if vals[i].None? {
        var z := ZeroOf(fields[i]);
        vals := vals[i := Some(if z.Some? then z.value else Nil)];
      }
      i := i + 1;
    }
    var members := seq(|vals|, m requires 0 <= m < |vals| => if vals[m].Some? then vals[m].value else Nil);
    assert members == OrZeros(written, fields);
    r := Ok(Members(members));
  }

  lemma {:induction false} ErrorsStay(fields: seq<Ty>, inits: seq<Designation>, k: nat)
    requires k <= |inits|
    requires Assigned(fields, inits[..k]).Err?
    ensures Assigned(fields, inits) == Assigned(fields, inits[..k])
    decreases |inits|
  {
    if k < |inits| {
      var n := |inits| - 1;
      assert inits[..n][..k] == inits[..k];
      ErrorsStay(fields, inits[..n], k);
    } else {
      assert inits[..k] == inits;
    }
  }

  method DoDesignatedUnionInitializer(fields: seq<Ty>, inits: seq<Designation>) returns (r: Result<Value>)
    ensures r == InitDesignatedUnion(fields, inits)
    decreases WeightOfInits(inits), fields, 3
  {
    if |inits| != 1 {
      return Err(OneDesignation);
    }
    var number := inits[0].component;
    if number >= |fields| {
      return Err(NoComponent);
    }
    assert inits[0].item < inits[0];
    var v := DoInitializerValue(fields[number], inits[0].item);
    r := if v.Err? then v else Ok(Alternative(v.value));
  }
}
