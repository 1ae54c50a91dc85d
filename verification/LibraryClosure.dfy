/** Linking the bundled C library (cprover_library.cpp): the symbols that the program needs are
    found with a worklist that grows while it is traversed, over a table of dependencies that
    shrinks as they are used. The result is the least set of library symbols that contains the
    roots and is closed under dependencies. */
module LibraryClosure {
  import opened Options

  /** An internal representation tree: an id, unnamed children, named children and named
      comments. */
  datatype Irep = Irep(id: string, sub: seq<Irep>, named: seq<Field>, comments: seq<Field>)

  datatype Field = Field(name: string, irep: Irep)

  datatype Symbol = Symbol(id: string, value: Irep, typ: Irep)

  /** The id of a named child, empty if there is none. */
  function Get(fields: seq<Field>, name: string): string {
    if fields == [] then "" else if fields[0].name == name then fields[0].irep.id else Get(fields[1..], name)
  }

  function Identifier(irep: Irep): string {
    Get(irep.named, "identifier")
  }

  function CmtIdentifier(irep: Irep): string {
    Get(irep.comments, "#identifier")
  }

  // ---- The names a tree mentions -----------------------------------------------------------

  /** The first child of this name has this id; no such child counts as an empty id. */
  ghost predicate ChildSays(fields: seq<Field>, name: string, id: string) {
    || (id == "" && forall i :: 0 <= i < |fields| ==> fields[i].name != name)
    || exists i :: 0 <= i < |fields| && fields[i].name == name && fields[i].irep.id == id
                   && forall j :: 0 <= j < i ==> fields[j].name != name
  }

  lemma {:induction false} GetsWhatChildSays(fields: seq<Field>, name: string, id: string)
    ensures Get(fields, name) == id <==> ChildSays(fields, name, id)
  {
    if fields != [] {
      var rest := fields[1..];
      if fields[0].name != name {
        GetsWhatChildSays(rest, name, id);
        ChildSaysTail(fields, name, id);
      } else {
        assert fields[0].irep.id == id ==> ChildSays(fields, name, id);
      }
    }
  }

  lemma ChildSaysTail(fields: seq<Field>, name: string, id: string)
    requires fields != [] && fields[0].name != name
    ensures ChildSays(fields, name, id) <==> ChildSays(fields[1..], name, id)
  {
    var rest := fields[1..];
    assert forall i :: 0 < i < |fields| ==> fields[i] == rest[i - 1];
    assert forall i :: 0 <= i < |rest| ==> rest[i] == fields[i + 1];
  }

  datatype Step = Sub(index: nat) | Named(index: nat)

  predicate HasChild(irep: Irep, step: Step) {
    match step
    case Sub(i) => i < |irep.sub|
    case Named(i) => i < |irep.named|
  }

  function Child(irep: Irep, step: Step): Irep
    requires HasChild(irep, step)
  {
    match step
    case Sub(i) => irep.sub[i]
    case Named(i) => irep.named[i].irep
  }

  /** A path down to the outermost symbol or argument on it, which has this name. Below the root,
      an argument ends every path, and a symbol does at any place. */
  ghost predicate LeadsTo(irep: Irep, path: seq<Step>, name: string) {
    if path == [] then irep.id == "symbol" && ChildSays(irep.named, "identifier", name)
    else
      && irep.id != "symbol" && HasChild(irep, path[0])
      && var child := Child(irep, path[0]);
      if child.id == "argument" then |path| == 1 && ChildSays(child.comments, "#identifier", name)
      else LeadsTo(child, path[1..], name)
  }

  ghost predicate Mentions(irep: Irep, name: string) {
    exists path :: LeadsTo(irep, path, name)
  }

  /** The names in the order of the traversal; a symbol among the unnamed children counts twice. */
  function Collected(irep: Irep): seq<string>
    decreases irep, 0
  {
    if irep.id == "symbol" then [Identifier(irep)] else CollectedSub(irep.sub) + CollectedNamed(irep.named)
  }

  function CollectedSub(sub: seq<Irep>): seq<string> {
    if sub == [] then [] else FromSub(sub[0]) + CollectedSub(sub[1..])
  }

  function CollectedNamed(named: seq<Field>): seq<string> {
    if named == [] then []
    else
      assert named[0].irep < named[0];
      FromNamed(named[0].irep) + CollectedNamed(named[1..])
  }

  function FromSub(child: Irep): seq<string>
    decreases child, 1
  {
    if child.id == "symbol" then [Identifier(child)] + Collected(child)
    else if child.id == "argument" then [CmtIdentifier(child)]
    else Collected(child)
  }

  function FromNamed(child: Irep): seq<string>
    decreases child, 1
  {
    if child.id == "symbol" then [Identifier(child)]
    else if child.id == "argument" then [CmtIdentifier(child)]
    else Collected(child)
  }

  lemma {:induction false} InSub(sub: seq<Irep>, name: string)
    ensures name in CollectedSub(sub) <==> exists i :: 0 <= i < |sub| && name in FromSub(sub[i])
  {
    if sub != [] {
      InSub(sub[1..], name);
      if name in CollectedSub(sub[1..]) {
        var i :| 0 <= i < |sub[1..]| && name in FromSub(sub[1..][i]);
        assert name in FromSub(sub[i + 1]);
      }
      if i :| 0 <= i < |sub| && name in FromSub(sub[i]) {
        assert i > 0 ==> sub[i] == sub[1..][i - 1];
      }
    }
  }

  lemma {:induction false} InNamed(named: seq<Field>, name: string)
    ensures name in CollectedNamed(named) <==> exists i :: 0 <= i < |named| && name in FromNamed(named[i].irep)
  {
    if named != [] {
      InNamed(named[1..], name);
      if name in CollectedNamed(named[1..]) {
        var i :| 0 <= i < |named[1..]| && name in FromNamed(named[1..][i].irep);
        assert name in FromNamed(named[i + 1].irep);
      }
      if i :| 0 <= i < |named| && name in FromNamed(named[i].irep) {
        assert i > 0 ==> named[i] == named[1..][i - 1];
      }
    }
  }

  /** The traversal collects exactly the names that the tree mentions. */
  lemma {:induction false} CollectedExactly(irep: Irep, name: string)
    ensures name in Collected(irep) <==> Mentions(irep, name)
    decreases irep, 1
  {
    if irep.id == "symbol" {
      GetsWhatChildSays(irep.named, "identifier", name);
      if name == Identifier(irep) {
        assert LeadsTo(irep, [], name);
      }
    } else {
      InSub(irep.sub, name);
      InNamed(irep.named, name);
      if name in CollectedSub(irep.sub) {
        var i :| 0 <= i < |irep.sub| && name in FromSub(irep.sub[i]);
        ThroughChild(irep, Sub(i), name);
      } else if name in CollectedNamed(irep.named) {
        var i :| 0 <= i < |irep.named| && name in FromNamed(irep.named[i].irep);
        ThroughChild(irep, Named(i), name);
      }
      if path :| LeadsTo(irep, path, name) {
        FromPath(irep, path, name);
        match path[0]
        case Sub(i) => assert name in FromSub(irep.sub[i]);
        case Named(i) => assert name in FromNamed(irep.named[i].irep);
      }
    }
  }

  lemma {:induction false} ThroughChild(irep: Irep, step: Step, name: string)
    requires irep.id != "symbol" && HasChild(irep, step)
    requires name in FromSub(Child(irep, step)) || name in FromNamed(Child(irep, step))
    ensures Mentions(irep, name)
    decreases irep, 0
  {
    var child := Child(irep, step);
    if child.id == "argument" {
      GetsWhatChildSays(child.comments, "#identifier", name);
      assert LeadsTo(irep, [step], name);
    } else {
      assert step.Named? ==> irep.named[step.index].irep < irep.named[step.index];
      CollectedExactly(child, name);
      var path :| LeadsTo(child, path, name);
      assert ([step] + path)[1..] == path;
      assert LeadsTo(irep, [step] + path, name);
    }
  }

  lemma {:induction false} FromPath(irep: Irep, path: seq<Step>, name: string)
    requires irep.id != "symbol" && LeadsTo(irep, path, name)
    ensures path != [] && HasChild(irep, path[0])
    ensures name in FromSub(Child(irep, path[0])) && name in FromNamed(Child(irep, path[0]))
    decreases irep, 0
  {
    var child := Child(irep, path[0]);
    if child.id == "argument" {
      GetsWhatChildSays(child.comments, "#identifier", name);
    } else {
      assert path[0].Named? ==> irep.named[path[0].index].irep < irep.named[path[0].index];
      assert LeadsTo(child, path[1..], name);
      CollectedExactly(child, name);
    }
  }

  // ---- Tables and contexts -----------------------------------------------------------------

  /** The dependencies of one name in a table. */
  function DepsIn(table: map<string, seq<string>>, name: string): seq<string> {
    if name in table then table[name] else []
  }

  function WithMore(table: map<string, seq<string>>, name: string, deps: seq<string>): map<string, seq<string>> {
    if deps == [] then table else table[name := DepsIn(table, name) + deps]
  }

  lemma WithNothing(table: map<string, seq<string>>, name: string)
    ensures WithMore(table, name, []) == table
  {}

  lemma WithMoreTwice(table: map<string, seq<string>>, name: string, xs: seq<string>, ys: seq<string>)
    ensures WithMore(WithMore(table, name, xs), name, ys) == WithMore(table, name, xs + ys)
  {
    assert DepsIn(table, name) + xs + ys == DepsIn(table, name) + (xs + ys);
    assert xs == [] ==> xs + ys == ys;
    assert ys == [] ==> xs + ys == xs;
  }

  lemma DepsWithMore(table: map<string, seq<string>>, name: string, deps: seq<string>)
    ensures forall n :: DepsIn(WithMore(table, name, deps), n) == DepsIn(table, n) + if n == name then deps else []
  {
    forall n
      ensures DepsIn(WithMore(table, name, deps), n) == DepsIn(table, n) + if n == name then deps else []
    {
      assert DepsIn(table, n) + [] == DepsIn(table, n);
    }
  }

  /** A multimap from names to the names they depend on. */
  class Dependencies {
    var table: map<string, seq<string>>

    constructor ()
      ensures table == map[]
    {
      table := map[];
    }

    method Insert(name: string, dep: string)
      modifies this
      ensures table == WithMore(old(table), name, [dep])
    {
      table := table[name := DepsIn(table, name) + [dep]];
    }

    method Erase(name: string)
      modifies this
      ensures table == old(table) - {name}
    {
      table := table - {name};
    }
  }

  /** A symbol table: a symbol is never replaced. */
  class Context {
    var symbols: map<string, Symbol>

    constructor ()
      ensures symbols == map[]
    {
      symbols := map[];
    }

    method Add(s: Symbol) returns (clash: bool)
      modifies this
      ensures clash <==> s.id in old(symbols)
      ensures symbols == if s.id in old(symbols) then old(symbols) else old(symbols)[s.id := s]
    {
      clash := s.id in symbols;
      if !clash {
        symbols := symbols[s.id := s];
      }
    }

    method FindSymbol(name: string) returns (s: Option<Symbol>)
      ensures s == if name in symbols then Some(symbols[name]) else None
    {
      s := if name in symbols then Some(symbols[name]) else None;
    }
  }

  /** Adds what a tree mentions to the dependencies of a name. */
  method GenerateSymbolDeps(name: string, irep: Irep, deps: Dependencies)
    modifies deps
    ensures deps.table == WithMore(old(deps.table), name, Collected(irep))
    decreases irep
  {
    hide WithMore;
    if irep.id == "symbol" {
      deps.Insert(name, Identifier(irep));
      return;
    }
    ghost var before := deps.table;
    var i := 0;
    while i < |irep.sub|
      invariant 0 <= i <= |irep.sub|
      invariant WithMore(before, name, CollectedSub(irep.sub)) ==
        WithMore(deps.table, name, CollectedSub(irep.sub[i..]))
    {
      var child := irep.sub[i];
      ghost var table := deps.table;
      if child.id == "symbol" {
        deps.Insert(name, Identifier(child));
        GenerateSymbolDeps(name, child, deps);
        WithMoreTwice(table, name, [Identifier(child)], Collected(child));
      } else if child.id == "argument" {
        deps.Insert(name, CmtIdentifier(child));
      } else {
        GenerateSymbolDeps(name, child, deps);
      }
      assert irep.sub[i..][1..] == irep.sub[i + 1..];
      WithMoreTwice(table, name, FromSub(child), CollectedSub(irep.sub[i + 1..]));
      i := i + 1;
    }
    ghost var middle := deps.table;
    WithNothing(middle, name);
    i := 0;
    while i < |irep.named|
      invariant 0 <= i <= |irep.named|
      invariant WithMore(middle, name, CollectedNamed(irep.named)) ==
        WithMore(deps.table, name, CollectedNamed(irep.named[i..]))
    {
      var child := irep.named[i].irep;
      assert child < irep.named[i];
      ghost var table := deps.table;
      if child.id == "symbol" {
        deps.Insert(name, Identifier(child));
      } else if child.id == "argument" {
        deps.Insert(name, CmtIdentifier(child));
      } else {
        GenerateSymbolDeps(name, child, deps);
      }
      assert irep.named[i..][1..] == irep.named[i + 1..];
      WithMoreTwice(table, name, FromNamed(child), CollectedNamed(irep.named[i + 1..]));
      i := i + 1;
    }
    WithNothing(deps.table, name);
    WithMoreTwice(before, name, CollectedSub(irep.sub), CollectedNamed(irep.named));
  }

  /** Moves the dependencies of a name from the table to the end of the list. */
  method IngestSymbol(name: string, deps: Dependencies, toInclude: seq<string>) returns (longer: seq<string>)
    modifies deps
    ensures longer == toInclude + DepsIn(old(deps.table), name)
    ensures deps.table == old(deps.table) - {name}
  {
    var range := DepsIn(deps.table, name);
    longer := toInclude;
    if range == [] && name !in deps.table {
      return;
    }
    var i := 0;
    while i < |range|
      invariant 0 <= i <= |range| && longer == toInclude + range[..i]
      invariant deps.table == old(deps.table)
    {
      longer := longer + [range[i]];
      i := i + 1;
    }
    assert range[..i] == range;
    deps.Erase(name);
  }

  // ---- The closure -------------------------------------------------------------------------

  /** Names that are pulled in together with another one, whatever the trees say. */
  function Paired(name: string): seq<string> {
    if name == "pthread_mutex_lock" then ["pthread_mutex_lock_check"]
    else if name == "pthread_cond_wait" then ["pthread_cond_wait_check"]
    else if name == "pthread_join" then ["pthread_join_noswitch"]
    else []
  }

  lemma PairedNames()
    ensures "pthread_mutex_lock" != "pthread_cond_wait" && "pthread_mutex_lock" != "pthread_join"
    ensures "pthread_cond_wait" != "pthread_join"
  {
    assert |"pthread_mutex_lock"| == 18 && |"pthread_cond_wait"| == 17 && |"pthread_join"| == 12;
  }

  /** What a symbol of the library mentions itself. */
  function Own(library: map<string, Symbol>, name: string): seq<string> {
    if name in library then Collected(library[name].value) + Collected(library[name].typ) else []
  }

  function DepsOf(library: map<string, Symbol>, name: string): seq<string> {
    Own(library, name) + Paired(name)
  }

  /** A symbol depends on what its value or its type mentions, and three names on another one. */
  ghost predicate DependsOn(library: map<string, Symbol>, name: string, dep: string) {
    || (name in library && (Mentions(library[name].value, dep) || Mentions(library[name].typ, dep)))
    || (name == "pthread_mutex_lock" && dep == "pthread_mutex_lock_check")
    || (name == "pthread_cond_wait" && dep == "pthread_cond_wait_check")
    || (name == "pthread_join" && dep == "pthread_join_noswitch")
  }

  lemma DependsExactly(library: map<string, Symbol>, name: string, dep: string)
    ensures dep in DepsOf(library, name) <==> DependsOn(library, name, dep)
  {
    hide Collected, Mentions;
    PairedNames();
    if name in library {
      CollectedExactly(library[name].value, dep);
      CollectedExactly(library[name].typ, dep);
    }
  }

  ghost predicate IsContext(symbols: map<string, Symbol>) {
    forall name <- symbols :: symbols[name].id == name
  }

  /** What the program uses and does not define; for Python everything is needed. */
  function Roots(context: map<string, Symbol>, library: map<string, Symbol>, python: bool): set<string> {
    set name | name in library && (python || (name in context && context[name].value.id == "nil"))
  }

  ghost predicate Closed(library: map<string, Symbol>, names: set<string>) {
    forall name, dep :: name in names && dep in library && DependsOn(library, name, dep) ==> dep in names
  }

  /** The least set of library symbols with the roots that is closed under dependencies. */
  ghost predicate LeastClosed(library: map<string, Symbol>, roots: set<string>, names: set<string>) {
    && roots <= names <= library.Keys
    && Closed(library, names)
    && forall other: set<string> :: roots <= other && Closed(library, other) ==> names <= other
  }

  /** Dependencies of a list of names, one after the other. */
  function Enqueued(library: map<string, Symbol>, order: seq<string>): seq<string> {
    if order == [] then []
    else Enqueued(library, order[..|order| - 1]) + DepsOf(library, order[|order| - 1])
  }

  ghost predicate Distinct(order: seq<string>) {
    forall i, j :: 0 <= i < j < |order| ==> order[i] != order[j]
  }

  lemma {:induction false} EnqueuedExactly(library: map<string, Symbol>, order: seq<string>, dep: string)
    ensures dep in Enqueued(library, order) <==> exists name :: name in order && DependsOn(library, name, dep)
  {
    hide DepsOf, DependsOn;
    if order != [] {
      DependsExactly(library, order[|order| - 1], dep);
      var front, last := order[..|order| - 1], order[|order| - 1];
      EnqueuedExactly(library, front, dep);
      assert order == front + [last];
    }
  }

  /** The table has what the symbols mention, but for those still to do. */
  ghost predicate Gathered(library: map<string, Symbol>, table: map<string, seq<string>>, todo: set<string>) {
    forall name :: DepsIn(table, name) == if name in todo then [] else Own(library, name)
  }

  lemma GatherOne(library: map<string, Symbol>, table: map<string, seq<string>>, todo: set<string>, id: string)
    requires Gathered(library, table, todo) && id in todo
    ensures Gathered(library, WithMore(table, id, Own(library, id)), todo - {id})
  {
    hide Own, WithMore;
    DepsWithMore(table, id, Own(library, id));
    assert forall name :: DepsIn(table, name) + [] == DepsIn(table, name);
  }

  lemma PairsAdded(library: map<string, Symbol>, table: map<string, seq<string>>)
    requires Gathered(library, table, {})
    ensures var mutex := WithMore(table, "pthread_mutex_lock", ["pthread_mutex_lock_check"]);
      var cond := WithMore(mutex, "pthread_cond_wait", ["pthread_cond_wait_check"]);
      var join := WithMore(cond, "pthread_join", ["pthread_join_noswitch"]);
      forall name :: DepsIn(join, name) == DepsOf(library, name)
  {
    hide Own, WithMore;
    var mutex := WithMore(table, "pthread_mutex_lock", ["pthread_mutex_lock_check"]);
    var cond := WithMore(mutex, "pthread_cond_wait", ["pthread_cond_wait_check"]);
    DepsWithMore(table, "pthread_mutex_lock", ["pthread_mutex_lock_check"]);
    DepsWithMore(mutex, "pthread_cond_wait", ["pthread_cond_wait_check"]);
    DepsWithMore(cond, "pthread_join", ["pthread_join_noswitch"]);
    PairedNames();
  }

  /** The table of dependencies of a library. */
  method CollectDeps(library: Context) returns (deps: Dependencies)
    requires IsContext(library.symbols)
    ensures fresh(deps)
    ensures forall name :: DepsIn(deps.table, name) == DepsOf(library.symbols, name)
  {
    hide WithMore;
    deps := new Dependencies();
    var todo := library.symbols.Keys;
    while todo != {}
      invariant todo <= library.symbols.Keys && fresh(deps)
      invariant Gathered(library.symbols, deps.table, todo)
    {
      var id :| id in todo;
      var s := library.symbols[id];
      ghost var before := deps.table;
      GenerateSymbolDeps(s.id, s.value, deps);
      GenerateSymbolDeps(s.id, s.typ, deps);
      WithMoreTwice(before, id, Collected(s.value), Collected(s.typ));
      GatherOne(library.symbols, before, todo, id);
      todo := todo - {id};
    }
    ghost var own := deps.table;
    deps.Insert("pthread_mutex_lock", "pthread_mutex_lock_check");
    deps.Insert("pthread_cond_wait", "pthread_cond_wait_check");
    deps.Insert("pthread_join", "pthread_join_noswitch");
    PairsAdded(library.symbols, own);
  }

  /** What holds at every step: the stored symbols are those of the library, the table has lost
      the dependencies of exactly the stored ones, and the list has each of those once. */
  ghost predicate Ingested(library: map<string, Symbol>, store: map<string, Symbol>, table: map<string, seq<string>>,
      order: seq<string>, toInclude: seq<string>)
  {
    && Stored(library, store, order)
    && Remaining(library, store, table)
    && toInclude == Enqueued(library, order)
  }

  ghost predicate Stored(library: map<string, Symbol>, store: map<string, Symbol>, order: seq<string>) {
    && store.Keys <= library.Keys
    && (forall name <- store :: store[name] == library[name])
    && Distinct(order)
    && forall name :: name in order <==> name in store
  }

  ghost predicate Remaining(library: map<string, Symbol>, store: map<string, Symbol>, table: map<string, seq<string>>) {
    forall name :: DepsIn(table, name) == if name in store then [] else DepsOf(library, name)
  }

  lemma NothingStored(library: map<string, Symbol>, table: map<string, seq<string>>)
    requires forall name :: DepsIn(table, name) == DepsOf(library, name)
    ensures Ingested(library, map[], table, [], [])
  {
    hide DepsOf;
  }

  lemma StoreOne(library: map<string, Symbol>, store: map<string, Symbol>, table: map<string, seq<string>>,
      order: seq<string>, toInclude: seq<string>, name: string)
    requires Ingested(library, store, table, order, toInclude) && name in library
    ensures name in store ==> store[name := library[name]] == store && toInclude + DepsIn(table, name) == toInclude
    ensures Ingested(library, store[name := library[name]], table - {name},
              if name in store then order else order + [name], toInclude + DepsIn(table, name))
  {
    hide Own, Paired, DepsOf, Remaining;
    RemainingAfter(library, store, table, name);
    if name !in store {
      assert (order + [name])[..|order|] == order;
    } else {
      assert toInclude + [] == toInclude;
    }
  }

  lemma RemainingAfter(library: map<string, Symbol>, store: map<string, Symbol>, table: map<string, seq<string>>,
      name: string)
    requires Remaining(library, store, table) && name in library
    ensures Remaining(library, store[name := library[name]], table - {name})
    ensures DepsIn(table, name) == if name in store then [] else DepsOf(library, name)
  {
    hide Own, Paired, DepsOf;
  }

  /** Every closed set with the roots has all that is stored. */
  ghost predicate Needed(library: map<string, Symbol>, roots: set<string>, store: map<string, Symbol>) {
    forall other: set<string> :: roots <= other && Closed(library, other) ==> store.Keys <= other
  }

  /** Stores a library symbol and ingests its dependencies. */
  method Pull(library: Context, s: Symbol, store: Context, deps: Dependencies, toInclude: seq<string>,
      ghost order: seq<string>)
    returns (longer: seq<string>, ghost order': seq<string>)
    requires library != store && IsContext(library.symbols) && s.id in library.symbols && library.symbols[s.id] == s
    requires Ingested(library.symbols, store.symbols, deps.table, order, toInclude)
    modifies store, deps
    ensures Ingested(library.symbols, store.symbols, deps.table, order', longer)
    ensures store.symbols == old(store.symbols)[s.id := s]
    ensures toInclude <= longer && (s.id in old(store.symbols) ==> longer == toInclude)
  {
    hide Ingested, Enqueued;
    StoreOne(library.symbols, store.symbols, deps.table, order, toInclude, s.id);
    order' := if s.id in store.symbols then order else order + [s.id];
    var _ := store.Add(s);
    longer := IngestSymbol(s.id, deps, toInclude);
  }

  /** The part of the list before the cursor is stored, as far as the library has it. */
  ghost predicate Traversed(library: map<string, Symbol>, store: map<string, Symbol>, toInclude: seq<string>,
      pos: nat) {
    pos <= |toInclude| && forall name <- toInclude[..pos] :: name in library ==> name in store
  }

  lemma NothingTraversed(library: map<string, Symbol>, store: map<string, Symbol>, toInclude: seq<string>)
    ensures Traversed(library, store, toInclude, 0)
  {}

  lemma TraversedOn(library: map<string, Symbol>, store: map<string, Symbol>, store': map<string, Symbol>,
      toInclude: seq<string>, longer: seq<string>, pos: nat)
    requires Traversed(library, store, toInclude, pos) && pos < |toInclude|
    requires store.Keys <= store'.Keys && toInclude <= longer
    requires toInclude[pos] in library ==> toInclude[pos] in store'
    ensures Traversed(library, store', longer, pos + 1)
  {
    assert longer[..pos + 1] == toInclude[..pos] + [toInclude[pos]];
  }

  /** Stores the roots: the library symbols are visited in any order. */
  method PullRoots(context: Context, library: Context, python: bool, store: Context, deps: Dependencies)
    returns (toInclude: seq<string>, ghost order: seq<string>)
    requires library != store && context != store && IsContext(library.symbols)
    requires Ingested(library.symbols, store.symbols, deps.table, [], [])
    modifies store, deps
    ensures Ingested(library.symbols, store.symbols, deps.table, order, toInclude)
    ensures store.symbols.Keys == Roots(context.symbols, library.symbols, python)
  {
    hide DepsOf, DependsOn, Enqueued, Distinct, Remaining;
    ghost var roots := Roots(context.symbols, library.symbols, python);
    toInclude, order := [], [];
    var todo := library.symbols.Keys;
    while todo != {}
      invariant todo <= library.symbols.Keys
      invariant Ingested(library.symbols, store.symbols, deps.table, order, toInclude)
      invariant store.symbols.Keys == roots - todo
    {
      var id :| id in todo;
      var s := library.symbols[id];
      var known := context.FindSymbol(s.id);
      if python || (known.Some? && known.value.value.id == "nil") {
        toInclude, order := Pull(library, s, store, deps, toInclude, order);
      }
      todo := todo - {id};
    }
  }

  /** Stores what the stored symbols depend on: the list grows while it is traversed. */
  method PullDependencies(library: Context, store: Context, deps: Dependencies, roots: seq<string>,
      ghost rootOrder: seq<string>)
    returns (toInclude: seq<string>, ghost order: seq<string>)
    requires library != store && IsContext(library.symbols)
    requires Ingested(library.symbols, store.symbols, deps.table, rootOrder, roots)
    modifies store, deps
    ensures Ingested(library.symbols, store.symbols, deps.table, order, toInclude)
    ensures LeastClosed(library.symbols, old(store.symbols.Keys), store.symbols.Keys)
  {
    hide DepsOf, DependsOn, Enqueued, Distinct, Remaining, Traversed;
    ghost var given := store.symbols.Keys;
    toInclude, order := roots, rootOrder;
    var pos := 0;
    NothingTraversed(library.symbols, store.symbols, toInclude);
    while pos < |toInclude|
      invariant 0 <= pos <= |toInclude|
      invariant Ingested(library.symbols, store.symbols, deps.table, order, toInclude)
      invariant given <= store.symbols.Keys && Needed(library.symbols, given, store.symbols)
      invariant Traversed(library.symbols, store.symbols, toInclude, pos)
      decreases library.symbols.Keys - store.symbols.Keys, |toInclude| - pos
    {
      ghost var stored, list := store.symbols, toInclude;
      var s := library.FindSymbol(toInclude[pos]);
      if s.Some? {
        StillNeeded(library.symbols, given, store.symbols, order, toInclude[pos]);
        toInclude, order := Pull(library, s.value, store, deps, toInclude, order);
      }
      TraversedOn(library.symbols, stored, store.symbols, list, toInclude, pos);
      pos := pos + 1;
    }
    ClosedAtEnd(library.symbols, store.symbols, order, toInclude);
  }

  /** add_cprover_library from the collected symbols to the store that is linked in. The store is
      the closure of the roots, and each stored symbol enqueued its dependencies once. */
  method AddLibrary(context: Context, library: Context, python: bool)
    returns (store: Context, toInclude: seq<string>, ghost order: seq<string>)
    requires IsContext(library.symbols)
    ensures fresh(store)
    ensures LeastClosed(library.symbols, Roots(context.symbols, library.symbols, python), store.symbols.Keys)
    ensures forall name <- library.symbols ::
      (name in context.symbols && context.symbols[name].value.id == "nil") || python ==> name in store.symbols
    ensures forall name, dep ::
      name in store.symbols && dep in library.symbols && DependsOn(library.symbols, name, dep) ==> dep in store.symbols
    ensures forall name <- store.symbols ::
      || python || (name in context.symbols && context.symbols[name].value.id == "nil")
      || exists user <- store.symbols :: user != name && DependsOn(library.symbols, user, name)
    ensures forall name <- store.symbols :: store.symbols[name] == library.symbols[name]
    ensures Distinct(order) && (forall name :: name in order <==> name in store.symbols)
    ensures toInclude == Enqueued(library.symbols, order)
  {
    var deps := CollectDeps(library);
    store := new Context();
    NothingStored(library.symbols, deps.table);
    toInclude, order := PullRoots(context, library, python, store, deps);
    toInclude, order := PullDependencies(library, store, deps, toInclude, order);
    StoredForAReason(library.symbols, Roots(context.symbols, library.symbols, python), store.symbols.Keys);
  }

  /** Every name of the closure is a root, or another one depends on it. */
  lemma StoredForAReason(library: map<string, Symbol>, roots: set<string>, names: set<string>)
    requires LeastClosed(library, roots, names)
    ensures forall name <- names ::
      name in roots || exists user <- names :: user != name && DependsOn(library, user, name)
  {
    hide DependsOn;
    forall name <- names
      ensures name in roots || exists user <- names :: user != name && DependsOn(library, user, name)
    {
      var others := names - {name};
      if name !in roots {
        assert !(names <= others);
        assert !Closed(library, others);
      }
    }
  }

  lemma StillNeeded(library: map<string, Symbol>, roots: set<string>, store: map<string, Symbol>, order: seq<string>,
      name: string)
    requires Needed(library, roots, store) && (forall n :: n in order <==> n in store)
    requires name in Enqueued(library, order) && name in library
    ensures Needed(library, roots, store[name := library[name]])
  {
    EnqueuedExactly(library, order, name);
  }

  lemma ClosedAtEnd(library: map<string, Symbol>, store: map<string, Symbol>, order: seq<string>,
      toInclude: seq<string>)
    requires (forall n :: n in order <==> n in store) && toInclude == Enqueued(library, order)
    requires Traversed(library, store, toInclude, |toInclude|)
    ensures Closed(library, store.Keys)
  {
    assert toInclude[..|toInclude|] == toInclude;
    hide DependsOn;
    forall name, dep | name in store.Keys && dep in library && DependsOn(library, name, dep)
      ensures dep in store.Keys
    {
      EnqueuedExactly(library, order, dep);
    }
  }

  // ---- What the closure is -----------------------------------------------------------------

  /** A chain of library symbols from a root, each a dependency of the one before. */
  ghost predicate Chain(library: map<string, Symbol>, roots: set<string>, c: seq<string>) {
    && c != [] && c[0] in roots
    && forall i :: 0 < i < |c| ==> c[i] in library && DependsOn(library, c[i - 1], c[i])
  }

  ghost predicate Reachable(library: map<string, Symbol>, roots: set<string>, name: string) {
    exists c :: Chain(library, roots, c) && c[|c| - 1] == name
  }

  /** The stored symbols are exactly those that a chain of dependencies from a root leads to. */
  lemma LeastClosedIsReachable(library: map<string, Symbol>, roots: set<string>, names: set<string>, name: string)
    requires LeastClosed(library, roots, names)
    ensures name in names <==> Reachable(library, roots, name)
  {
    hide DependsOn;
    var reached := set n | n in names && Reachable(library, roots, n);
    ReachedIsClosed(library, roots, names, reached);
    assert names <= reached;
    if Reachable(library, roots, name) {
      var c :| Chain(library, roots, c) && c[|c| - 1] == name;
      ChainStaysInside(library, roots, names, c, |c| - 1);
    }
  }

  lemma ChainOn(library: map<string, Symbol>, roots: set<string>, c: seq<string>, dep: string)
    requires Chain(library, roots, c) && dep in library && DependsOn(library, c[|c| - 1], dep)
    ensures Reachable(library, roots, dep)
  {
    hide DependsOn;
    assert Chain(library, roots, c + [dep]);
  }

  lemma ReachedIsClosed(library: map<string, Symbol>, roots: set<string>, names: set<string>, reached: set<string>)
    requires roots <= names && Closed(library, names)
    requires reached == set n | n in names && Reachable(library, roots, n)
    ensures roots <= reached && Closed(library, reached)
  {
    hide DependsOn;
    forall n | n in roots ensures n in reached {
      assert Chain(library, roots, [n]);
    }
    forall n, dep | n in reached && dep in library && DependsOn(library, n, dep)
      ensures dep in reached
    {
      var c :| Chain(library, roots, c) && c[|c| - 1] == n;
      ChainOn(library, roots, c, dep);
    }
  }

  lemma {:induction false} ChainStaysInside(library: map<string, Symbol>, roots: set<string>, names: set<string>,
      c: seq<string>, i: nat)
    requires roots <= names && Closed(library, names) && Chain(library, roots, c) && i < |c|
    ensures c[i] in names
  {
    if i > 0 {
      ChainStaysInside(library, roots, names, c, i - 1);
    }
  }
}
