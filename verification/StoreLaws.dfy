/** Stores that agree off a name or at one: what evaluating an expression, declaring names, leaving
    a scope and running a statement do to a name that they do not mention or do not touch. */
module StoreLaws {
  import opened Options
  import opened Statements

  // ---- Names -------------------------------------------------------------------------------

  function Mentioned(e: Expr): set<string> {
    match e
    case Const(_) => {}
    case Var(x) => {x}
    case Apply(_, l, r) => Mentioned(l) + Mentioned(r)
    case Choose(test, yes, no) => Mentioned(test) + Mentioned(yes) + Mentioned(no)
    case Assign(x, e1) => {x} + Mentioned(e1)
  }

  function MentionedInDecls(ds: seq<Declarator>): set<string> {
    if ds == [] then {}
    else
      {ds[0].x} + (match ds[0].init case None => {} case Some(e) => Mentioned(e)) + MentionedInDecls(ds[1..])
  }

  function MentionedInSimple(s: Simple): set<string> {
    match s
    case Nil => {}
    case Expression(e) => Mentioned(e)
    case Decls(ds) => MentionedInDecls(ds)
  }

  // ---- Stores that agree -------------------------------------------------------------------

  /** Two stores agree on every name but one. */
  ghost predicate AgreeOff(x: string, s: Store, t: Store) {
    s - {x} == t - {x}
  }

  /** A name has the same value in both stores, or none. */
  ghost predicate SameAt(x: string, s: Store, t: Store) {
    (x in s <==> x in t) && (x in s ==> s[x] == t[x])
  }

  lemma Agreement(x: string, s: Store, t: Store)
    ensures AgreeOff(x, s, t) <==> forall y :: y != x ==> SameAt(y, s, t)
  {
    if forall y :: y != x ==> SameAt(y, s, t) {
      forall y | y in s && y != x ensures y in t && s[y] == t[y] {
        assert SameAt(y, s, t);
      }
      forall y | y in t && y != x ensures y in s {
        assert SameAt(y, s, t);
      }
      assert s - {x} == t - {x};
    }
    if AgreeOff(x, s, t) {
      forall y | y != x ensures SameAt(y, s, t) {
        assert y in s - {x} <==> y in t - {x};
        assert y in s ==> (s - {x})[y] == (t - {x})[y];
      }
    }
  }

  /** The same store is left if a name is bound in both. */
  lemma BindBoth(x: string, v: int, s: Store, t: Store)
    requires AgreeOff(x, s, t)
    ensures s[x := v] == t[x := v]
  {
    assert s[x := v] == (s - {x})[x := v] && t[x := v] == (t - {x})[x := v];
  }

  lemma AgreeAfterAssign(x: string, s: Store, t: Store, y: string, v: int)
    requires AgreeOff(x, s, t)
    ensures AgreeOff(x, s[y := v], t[y := v]) && AgreeOff(x, s - {y}, t - {y})
  {
    assert s - {y} - {x} == s - {x} - {y} && t - {y} - {x} == t - {x} - {y};
    if y == x {
      assert s[y := v] - {x} == s - {x} && t[y := v] - {x} == t - {x};
    } else {
      assert s[y := v] - {x} == (s - {x})[y := v] && t[y := v] - {x} == (t - {x})[y := v];
    }
  }

  /** Evaluation does not see a name that it does not mention, and leaves it alone. */
  lemma {:induction false} EvalOff(ops: Ops, e: Expr, x: string, s: Store, t: Store)
    requires x !in Mentioned(e) && AgreeOff(x, s, t)
    ensures Eval(ops, e, s).Val? <==> Eval(ops, e, t).Val?
    ensures Eval(ops, e, s).Val? ==> Eval(ops, e, s).v == Eval(ops, e, t).v
    ensures Eval(ops, e, s).Val? ==> AgreeOff(x, Eval(ops, e, s).st, Eval(ops, e, t).st)
    ensures Eval(ops, e, s).Val? ==> SameAt(x, Eval(ops, e, s).st, s) && SameAt(x, Eval(ops, e, t).st, t)
  {
    match e
    case Const(_) =>
    case Var(y) => Agreement(x, s, t); assert SameAt(y, s, t);
    case Apply(_, l, r) =>
      EvalOff(ops, l, x, s, t);
      if Eval(ops, l, s).Val? {
        EvalOff(ops, r, x, Eval(ops, l, s).st, Eval(ops, l, t).st);
      }
    case Choose(test, yes, no) =>
      EvalOff(ops, test, x, s, t);
      if Eval(ops, test, s).Val? {
        EvalOff(ops, if Eval(ops, test, s).v != 0 then yes else no, x, Eval(ops, test, s).st, Eval(ops, test, t).st);
      }
    case Assign(y, e1) =>
      EvalOff(ops, e1, x, s, t);
      if Eval(ops, e1, s).Val? {
        AgreeAfterAssign(x, Eval(ops, e1, s).st, Eval(ops, e1, t).st, y, Eval(ops, e1, s).v);
      }
  }

  /** Outcomes that differ at most in the value of one name. */
  ghost predicate AlikeOff(x: string, o: Outcome, p: Outcome) {
    match o
    case Normal(s) => p.Normal? && AgreeOff(x, s, p.st)
    case Broke(s) => p.Broke? && AgreeOff(x, s, p.st)
    case Continued(s) => p.Continued? && AgreeOff(x, s, p.st)
    case Returned(v, s) => p.Returned? && p.value == v && AgreeOff(x, s, p.st)
    case _ => o == p
  }

  lemma {:induction false} DeclareAllOff(ops: Ops, ds: seq<Declarator>, x: string, s: Store, t: Store)
    requires x !in MentionedInDecls(ds) && AgreeOff(x, s, t)
    ensures var o, p := DeclareAll(ops, ds, s), DeclareAll(ops, ds, t);
      AlikeOff(x, o, p) && (o == Stuck || (o.Normal? && SameAt(x, o.st, s)))
  {
    if ds != [] {
      var y := ds[0].x;
      AgreeAfterAssign(x, s, t, y, 0);
      match ds[0].init
      case None => DeclareAllOff(ops, ds[1..], x, s - {y}, t - {y});
      case Some(e) =>
        EvalOff(ops, e, x, s - {y}, t - {y});
        match Eval(ops, e, s - {y})
        case Undefined =>
        case Val(v, s1) =>
          var t1 := Eval(ops, e, t - {y}).st;
          AgreeAfterAssign(x, s1, t1, y, v);
          DeclareAllOff(ops, ds[1..], x, s1[y := v], t1[y := v]);
    }
  }

  lemma RunSimpleOff(ops: Ops, simple: Simple, x: string, s: Store, t: Store)
    requires x !in MentionedInSimple(simple) && AgreeOff(x, s, t)
    ensures var o, p := RunSimple(ops, simple, s), RunSimple(ops, simple, t);
      AlikeOff(x, o, p) && (o == Stuck || (o.Normal? && SameAt(x, o.st, s)))
  {
    match simple
    case Nil =>
    case Expression(e) => EvalOff(ops, e, x, s, t);
    case Decls(ds) => DeclareAllOff(ops, ds, x, s, t);
  }

  lemma {:induction false} NamesMentioned(ds: seq<Declarator>, x: string)
    requires x !in MentionedInDecls(ds)
    ensures x !in Names(ds)
  {
    if ds != [] {
      NamesMentioned(ds[1..], x);
      assert ds == [ds[0]] + ds[1..];
    }
  }

  // ---- Scopes ------------------------------------------------------------------------------

  lemma RestoreNothing(outer: Store, inner: Store)
    ensures Restore(outer, inner, {}) == inner
  {
    assert inner - {} == inner;
  }

  lemma LeaveNothing(o: Outcome, outer: Store)
    ensures Leave(o, outer, {}) == o
  {
    if o.Normal? || o.Broke? || o.Continued? || o.Returned? {
      RestoreNothing(outer, o.st);
    }
  }

  lemma RestoredAt(outer: Store, inner: Store, names: set<string>, y: string)
    ensures SameAt(y, Restore(outer, inner, names), if y in names then outer else inner)
  {}

  /** A block of a hoisted declaration around a block restores what the inner block alone does,
      if the hoisted name is fresh. */
  lemma RestoreHoisted(x: string, outer: Store, s: Store, t: Store, names: set<string>)
    requires x !in names && AgreeOff(x, s, t) && SameAt(x, s, outer)
    ensures Restore(outer, Restore(outer - {x}, t, names), {x}) == Restore(outer, s, names)
  {
    var left, right := Restore(outer, Restore(outer - {x}, t, names), {x}), Restore(outer, s, names);
    Agreement(x, s, t);
    forall y ensures SameAt(y, left, right) {
      RestoredAt(outer, Restore(outer - {x}, t, names), {x}, y);
      RestoredAt(outer - {x}, t, names, y);
      RestoredAt(outer, s, names, y);
      assert y != x ==> SameAt(y, s, t) && SameAt(y, outer - {x}, outer);
    }
    SameEverywhere(left, right);
  }

  lemma SameEverywhere(s: Store, t: Store)
    requires forall y :: SameAt(y, s, t)
    ensures s == t
  {
    forall y | y in s ensures y in t && s[y] == t[y] {
      assert SameAt(y, s, t);
    }
    forall y | y in t ensures y in s {
      assert SameAt(y, s, t);
    }
  }

  ghost predicate KeepsAt(x: string, o: Outcome, st: Store) {
    o.Normal? || o.Broke? || o.Continued? || o.Returned? ==> SameAt(x, o.st, st)
  }

  lemma LeaveHoisted(x: string, outer: Store, o: Outcome, p: Outcome, names: set<string>)
    requires x !in names && AlikeOff(x, o, p) && KeepsAt(x, o, outer)
    ensures Leave(Leave(p, outer - {x}, names), outer, {x}) == Leave(o, outer, names)
  {
    if o.Normal? || o.Broke? || o.Continued? || o.Returned? {
      RestoreHoisted(x, outer, o.st, p.st, names);
    }
  }

  lemma RestoreOff(x: string, outer: Store, inner: Store)
    ensures AgreeOff(x, Restore(outer, inner, {x}), inner) && SameAt(x, Restore(outer, inner, {x}), outer)
  {
    Agreement(x, Restore(outer, inner, {x}), inner);
    forall y | y != x ensures SameAt(y, Restore(outer, inner, {x}), inner) {
      RestoredAt(outer, inner, {x}, y);
    }
    RestoredAt(outer, inner, {x}, x);
  }

  lemma LeaveOff(x: string, outer: Store, o: Outcome)
    ensures AlikeOff(x, Leave(o, outer, {x}), o) && KeepsAt(x, Leave(o, outer, {x}), outer)
  {
    if o.Normal? || o.Broke? || o.Continued? || o.Returned? {
      RestoreOff(x, outer, o.st);
    }
  }

  /** Only the names of a scope are taken from the store outside it. */
  lemma LeaveSameOuter(x: string, o: Outcome, s: Store, t: Store)
    requires SameAt(x, s, t)
    ensures Leave(o, s, {x}) == Leave(o, t, {x})
  {
    if o.Normal? || o.Broke? || o.Continued? || o.Returned? {
      var left, right := Restore(s, o.st, {x}), Restore(t, o.st, {x});
      forall y ensures SameAt(y, left, right) {
        RestoredAt(s, o.st, {x}, y);
        RestoredAt(t, o.st, {x}, y);
      }
      SameEverywhere(left, right);
    }
  }

  // ---- Names that are not touched ----------------------------------------------------------

  function Assigned(e: Expr): set<string> {
    match e
    case Const(_) => {}
    case Var(_) => {}
    case Apply(_, l, r) => Assigned(l) + Assigned(r)
    case Choose(test, yes, no) => Assigned(test) + Assigned(yes) + Assigned(no)
    case Assign(x, e1) => {x} + Assigned(e1)
  }

  ghost predicate DeclsLeave(n: string, ds: seq<Declarator>) {
    ds == []
    || (ds[0].x != n && (ds[0].init.Some? ==> n !in Assigned(ds[0].init.value)) && DeclsLeave(n, ds[1..]))
  }

  ghost predicate SimpleLeaves(n: string, s: Simple) {
    match s
    case Nil => true
    case Expression(e) => n !in Assigned(e)
    case Decls(ds) => DeclsLeave(n, ds)
  }

  ghost predicate CondLeaves(n: string, cond: Cond) {
    match cond
    case Test(e) => n !in Assigned(e)
    case Declares(x, e) => n != x && n !in Assigned(e)
  }

  /** A statement neither assigns a name nor declares it. */
  ghost predicate Untouched(n: string, s: Stmt) {
    match s
    case Plain(simple) => SimpleLeaves(n, simple)
    case Block(stmts) => AllUntouched(n, stmts)
    case If(cond, yes, no) => CondLeaves(n, cond) && Untouched(n, yes) && Untouched(n, no)
    case While(cond, body) => CondLeaves(n, cond) && Untouched(n, body)
    case DoWhile(body, test) => n !in Assigned(test) && Untouched(n, body)
    case For(init, cond, inc, body) =>
      SimpleLeaves(n, init) && CondLeaves(n, cond) && n !in Assigned(inc) && Untouched(n, body)
    case Switch(cond, arms) => CondLeaves(n, cond) && ArmsUntouched(n, arms)
    case Break => true
    case Continue => true
    case Return(e) => n !in Assigned(e)
  }

  ghost predicate AllUntouched(n: string, stmts: seq<Stmt>) {
    stmts == [] || (Untouched(n, stmts[0]) && AllUntouched(n, stmts[1..]))
  }

  ghost predicate ArmsUntouched(n: string, arms: seq<Arm>) {
    arms == [] || (AllUntouched(n, arms[0].code) && ArmsUntouched(n, arms[1..]))
  }

  lemma {:induction false} EvalKeeps(ops: Ops, e: Expr, n: string, st: Store)
    requires n !in Assigned(e)
    ensures Eval(ops, e, st).Val? ==> SameAt(n, Eval(ops, e, st).st, st)
  {
    match e
    case Const(_) =>
    case Var(_) =>
    case Apply(_, l, r) =>
      EvalKeeps(ops, l, n, st);
      if Eval(ops, l, st).Val? {
        EvalKeeps(ops, r, n, Eval(ops, l, st).st);
      }
    case Choose(test, yes, no) =>
      EvalKeeps(ops, test, n, st);
      if Eval(ops, test, st).Val? {
        EvalKeeps(ops, if Eval(ops, test, st).v != 0 then yes else no, n, Eval(ops, test, st).st);
      }
    case Assign(_, e1) =>
      EvalKeeps(ops, e1, n, st);
  }

  lemma DeclareKeeps(ops: Ops, x: string, e: Expr, n: string, st: Store)
    requires n != x && n !in Assigned(e)
    ensures Declare(ops, x, e, st).Val? ==> SameAt(n, Declare(ops, x, e, st).st, st)
  {
    EvalKeeps(ops, e, n, st - {x});
  }

  lemma {:induction false} DeclareAllKeeps(ops: Ops, ds: seq<Declarator>, n: string, st: Store)
    requires DeclsLeave(n, ds)
    ensures KeepsAt(n, DeclareAll(ops, ds, st), st)
  {
    if ds != [] {
      match ds[0].init
      case None => DeclareAllKeeps(ops, ds[1..], n, st - {ds[0].x});
      case Some(e) =>
        DeclareKeeps(ops, ds[0].x, e, n, st);
        match Declare(ops, ds[0].x, e, st)
        case Undefined =>
        case Val(_, st1) => DeclareAllKeeps(ops, ds[1..], n, st1);
    }
  }

  lemma RunSimpleKeeps(ops: Ops, s: Simple, n: string, st: Store)
    requires SimpleLeaves(n, s)
    ensures KeepsAt(n, RunSimple(ops, s, st), st)
  {
    match s
    case Nil =>
    case Expression(e) => EvalKeeps(ops, e, n, st);
    case Decls(ds) => DeclareAllKeeps(ops, ds, n, st);
  }

  lemma LeaveKeeps(n: string, o: Outcome, outer: Store, names: set<string>)
    requires n in names || KeepsAt(n, o, outer)
    ensures KeepsAt(n, Leave(o, outer, names), outer)
  {
    if o.Normal? || o.Broke? || o.Continued? || o.Returned? {
      RestoredAt(outer, o.st, names, n);
    }
  }

  /** Running a statement leaves a name alone that the statement does not touch. */
  lemma {:induction false} ExecKeeps(ops: Ops, s: Stmt, n: string, st: Store, fuel: nat)
    requires Untouched(n, s)
    ensures KeepsAt(n, Exec(ops, s, st, fuel), st)
    decreases fuel, s, 0
  {
    hide Eval, Declare, Leave, RunSimple;
    match s
    case Plain(simple) => RunSimpleKeeps(ops, simple, n, st);
    case Block(stmts) =>
      AllKeep(ops, stmts, n, st, fuel);
      LeaveKeeps(n, ExecAll(ops, stmts, st, fuel), st, DeclaredIn(stmts));
    case If(cond, yes, no) =>
      var r := CondValue(ops, cond, st);
      CondKeeps(ops, cond, n, st);
      if r.Val? {
        ScopedKeeps(ops, yes, n, r.st, fuel);
        ScopedKeeps(ops, no, n, r.st, fuel);
        LeaveCond(n, cond, if r.v != 0 then ExecScoped(ops, yes, r.st, fuel) else ExecScoped(ops, no, r.st, fuel), st);
      }
    case While(cond, body) => LoopKeeps(ops, cond, Const(0), body, n, st, fuel);
    case DoWhile(body, test) => DoLoopKeeps(ops, body, test, n, st, fuel);
    case For(init, cond, inc, body) =>
      RunSimpleKeeps(ops, init, n, st);
      match RunSimple(ops, init, st) {
        case Normal(st1) =>
          LoopKeeps(ops, cond, inc, body, n, st1, fuel);
          LeaveKeeps(n, Loop(ops, cond, inc, body, st1, fuel), st, Declared(Plain(init)));
        case _ =>
      }
    case Switch(cond, arms) =>
      var r := CondValue(ops, cond, st);
      CondKeeps(ops, cond, n, st);
      if r.Val? {
        SwitchKeeps(ops, arms, r.v, n, r.st, fuel);
        LeaveCond(n, cond, ExecSwitch(ops, arms, r.v, r.st, fuel), st);
      }
    case Break =>
    case Continue =>
    case Return(e) => EvalKeeps(ops, e, n, st);
  }

  function CondValue(ops: Ops, cond: Cond, st: Store): Evaluated {
    match cond
    case Test(e) => Eval(ops, e, st)
    case Declares(x, e) => Declare(ops, x, e, st)
  }

  lemma CondKeeps(ops: Ops, cond: Cond, n: string, st: Store)
    requires CondLeaves(n, cond)
    ensures CondValue(ops, cond, st).Val? ==> SameAt(n, CondValue(ops, cond, st).st, st)
  {
    match cond
    case Test(e) => EvalKeeps(ops, e, n, st);
    case Declares(x, e) => DeclareKeeps(ops, x, e, n, st);
  }

  lemma LeaveCond(n: string, cond: Cond, o: Outcome, st: Store)
    requires KeepsAt(n, o, st)
    ensures cond.Declares? ==> KeepsAt(n, Leave(o, st, {cond.x}), st)
  {
    if cond.Declares? {
      LeaveKeeps(n, o, st, {cond.x});
    }
  }

  lemma {:induction false} ScopedKeeps(ops: Ops, s: Stmt, n: string, st: Store, fuel: nat)
    requires Untouched(n, s)
    ensures KeepsAt(n, ExecScoped(ops, s, st, fuel), st)
    decreases fuel, s, 1
  {
    ExecKeeps(ops, s, n, st, fuel);
    LeaveKeeps(n, Exec(ops, s, st, fuel), st, Declared(s));
  }

  lemma {:induction false} AllKeep(ops: Ops, stmts: seq<Stmt>, n: string, st: Store, fuel: nat)
    requires AllUntouched(n, stmts)
    ensures KeepsAt(n, ExecAll(ops, stmts, st, fuel), st)
    decreases fuel, stmts, 0
  {
    if stmts != [] {
      ExecKeeps(ops, stmts[0], n, st, fuel);
      match Exec(ops, stmts[0], st, fuel)
      case Normal(st1) => AllKeep(ops, stmts[1..], n, st1, fuel);
      case _ =>
    }
  }

  lemma {:induction false} TurnKeeps(ops: Ops, inc: Expr, body: Stmt, n: string, st: Store, fuel: nat)
    requires Untouched(n, body) && n !in Assigned(inc)
    ensures KeepsAt(n, Turn(ops, inc, body, st, fuel), st)
    decreases fuel, body, 2
  {
    ScopedKeeps(ops, body, n, st, fuel);
    var o := ExecScoped(ops, body, st, fuel);
    if o.Normal? || o.Continued? {
      RunSimpleKeeps(ops, Expression(inc), n, o.st);
    }
  }

  lemma {:induction false} LoopKeeps(ops: Ops, cond: Cond, inc: Expr, body: Stmt, n: string, st: Store, fuel: nat)
    requires CondLeaves(n, cond) && n !in Assigned(inc) && Untouched(n, body)
    ensures KeepsAt(n, Loop(ops, cond, inc, body, st, fuel), st)
    decreases fuel, body, 3
  {
    hide Eval, Declare, Turn, Leave, Exec, ExecScoped, Untouched;
    var r := CondValue(ops, cond, st);
    CondKeeps(ops, cond, n, st);
    if r.Val? && r.v == 0 {
      LeaveCond(n, cond, Normal(r.st), st);
      LeaveNormal(r.st, st, cond);
    } else if r.Val? && fuel > 0 {
      var turn := Turn(ops, inc, body, r.st, fuel);
      TurnKeeps(ops, inc, body, n, r.st, fuel);
      LeaveCond(n, cond, turn, st);
      var left := if cond.Declares? then Leave(turn, st, {cond.x}) else turn;
      if left.Normal? {
        LoopKeeps(ops, cond, inc, body, n, left.st, fuel - 1);
      }
    }
  }

  lemma LeaveNormal(inner: Store, outer: Store, cond: Cond)
    ensures cond.Declares? ==> Leave(Normal(inner), outer, {cond.x}) == Normal(Restore(outer, inner, {cond.x}))
  {}

  lemma {:induction false} DoLoopKeeps(ops: Ops, body: Stmt, test: Expr, n: string, st: Store, fuel: nat)
    requires n !in Assigned(test) && Untouched(n, body)
    ensures KeepsAt(n, DoLoop(ops, body, test, st, fuel), st)
    decreases fuel, body, 3
  {
    hide Eval, Exec, ExecScoped, Untouched;
    if fuel > 0 {
      ScopedKeeps(ops, body, n, st, fuel);
      var o := ExecScoped(ops, body, st, fuel);
      if o.Normal? || o.Continued? {
        EvalKeeps(ops, test, n, o.st);
        var r := Eval(ops, test, o.st);
        if r.Val? && r.v != 0 {
          DoLoopKeeps(ops, body, test, n, r.st, fuel - 1);
        }
      }
    }
  }

  lemma {:induction false} SwitchKeeps(ops: Ops, arms: seq<Arm>, v: int, n: string, st: Store, fuel: nat)
    requires ArmsUntouched(n, arms)
    ensures KeepsAt(n, ExecSwitch(ops, arms, v, st, fuel), st)
    decreases fuel, arms, |arms| + 1
  {
    var names := DeclaredInArms(arms);
    var o := ExecArms(ops, arms, Selected(arms, v), st - names, fuel);
    ArmsKeep(ops, arms, Selected(arms, v), n, st - names, fuel);
    LeaveKeeps(n, o, st, names);
  }

  lemma {:induction false} ArmsKeep(ops: Ops, arms: seq<Arm>, k: nat, n: string, st: Store, fuel: nat)
    requires ArmsUntouched(n, arms)
    ensures KeepsAt(n, ExecArms(ops, arms, k, st, fuel), st)
    decreases fuel, arms, if k <= |arms| then |arms| - k else 0
  {
    if k < |arms| {
      ArmUntouched(n, arms, k);
      AllKeep(ops, arms[k].code, n, st, fuel);
      match ExecAll(ops, arms[k].code, st, fuel)
      case Normal(st1) => ArmsKeep(ops, arms, k + 1, n, st1, fuel);
      case _ =>
    }
  }

  lemma {:induction false} ArmUntouched(n: string, arms: seq<Arm>, k: nat)
    requires ArmsUntouched(n, arms) && k < |arms|
    ensures AllUntouched(n, arms[k].code)
  {
    if k > 0 {
      ArmUntouched(n, arms[1..], k - 1);
    }
  }

  /** An expression that assigns nothing. */
  predicate Pure(e: Expr) {
    match e
    case Const(_) => true
    case Var(_) => true
    case Apply(_, l, r) => Pure(l) && Pure(r)
    case Choose(test, yes, no) => Pure(test) && Pure(yes) && Pure(no)
    case Assign(_, _) => false
  }

  /** A pure expression depends on the names it mentions alone, and leaves the store as it is. */
  lemma {:induction false} EvalPure(ops: Ops, e: Expr, s: Store, t: Store)
    requires Pure(e) && forall n <- Mentioned(e) :: SameAt(n, s, t)
    ensures Eval(ops, e, s).Val? <==> Eval(ops, e, t).Val?
    ensures Eval(ops, e, s).Val? ==> Eval(ops, e, s) == Val(Eval(ops, e, t).v, s)
    ensures Eval(ops, e, t).Val? ==> Eval(ops, e, t).st == t
  {
    match e
    case Const(_) =>
    case Var(x) => assert x in Mentioned(e) && SameAt(x, s, t);
    case Apply(_, l, r) =>
      EvalPure(ops, l, s, t);
      EvalPure(ops, r, s, t);
    case Choose(test, yes, no) =>
      EvalPure(ops, test, s, t);
      EvalPure(ops, yes, s, t);
      EvalPure(ops, no, s, t);
  }

  // ---- Statements that leave a loop --------------------------------------------------------

  /** No continue statement in it belongs to a loop around it. */
  ghost predicate NeverContinues(s: Stmt) {
    match s
    case Block(stmts) => NoneContinues(stmts)
    case If(_, yes, no) => NeverContinues(yes) && NeverContinues(no)
    case Switch(_, arms) => NoArmContinues(arms)
    case Continue => false
    case _ => true
  }

  ghost predicate NoneContinues(stmts: seq<Stmt>) {
    stmts == [] || (NeverContinues(stmts[0]) && NoneContinues(stmts[1..]))
  }

  ghost predicate NoArmContinues(arms: seq<Arm>) {
    arms == [] || (NoneContinues(arms[0].code) && NoArmContinues(arms[1..]))
  }

  /** Every way through it comes to a break or return statement. */
  ghost predicate AlwaysLeaves(s: Stmt) {
    match s
    case Break => true
    case Return(_) => true
    case Block(stmts) => SomeLeaves(stmts)
    case If(_, yes, no) => AlwaysLeaves(yes) && AlwaysLeaves(no)
    case _ => false
  }

  ghost predicate SomeLeaves(stmts: seq<Stmt>) {
    stmts != [] && (AlwaysLeaves(stmts[0]) || (NeverContinues(stmts[0]) && SomeLeaves(stmts[1..])))
  }

  lemma {:induction false} LoopNeverContinues(ops: Ops, cond: Cond, inc: Expr, body: Stmt, st: Store, fuel: nat)
    ensures !Loop(ops, cond, inc, body, st, fuel).Continued?
    decreases fuel
  {
    hide Eval, Declare, Exec, ExecScoped;
    var r := CondValue(ops, cond, st);
    if r.Val? && r.v != 0 && fuel > 0 {
      var turn := Turn(ops, inc, body, r.st, fuel);
      var left := if cond.Declares? then Leave(turn, st, {cond.x}) else turn;
      if left.Normal? {
        LoopNeverContinues(ops, cond, inc, body, left.st, fuel - 1);
      }
    }
  }

  lemma {:induction false} DoLoopNeverContinues(ops: Ops, body: Stmt, test: Expr, st: Store, fuel: nat)
    ensures !DoLoop(ops, body, test, st, fuel).Continued?
    decreases fuel
  {
    hide Eval, Exec, ExecScoped;
    if fuel > 0 {
      var o := ExecScoped(ops, body, st, fuel);
      if o.Normal? || o.Continued? {
        var r := Eval(ops, test, o.st);
        if r.Val? && r.v != 0 {
          DoLoopNeverContinues(ops, body, test, r.st, fuel - 1);
        }
      }
    }
  }

  lemma {:induction false} ExecNeverContinues(ops: Ops, s: Stmt, st: Store, fuel: nat)
    requires NeverContinues(s)
    ensures !Exec(ops, s, st, fuel).Continued?
    decreases s, 0
  {
    hide Eval, Declare, Loop, DoLoop, RunSimple;
    match s
    case Block(stmts) => NoneContinue(ops, stmts, st, fuel);
    case If(cond, yes, no) =>
      var r := CondValue(ops, cond, st);
      if r.Val? {
        ExecNeverContinues(ops, yes, r.st, fuel);
        ExecNeverContinues(ops, no, r.st, fuel);
      }
    case While(cond, body) => LoopNeverContinues(ops, cond, Const(0), body, st, fuel);
    case DoWhile(body, test) => DoLoopNeverContinues(ops, body, test, st, fuel);
    case For(init, cond, inc, body) =>
      match RunSimple(ops, init, st) {
        case Normal(st1) => LoopNeverContinues(ops, cond, inc, body, st1, fuel);
        case _ =>
      }
    case Switch(cond, arms) =>
      var r := CondValue(ops, cond, st);
      if r.Val? {
        ArmsNeverContinue(ops, arms, Selected(arms, r.v), r.st - DeclaredInArms(arms), fuel);
      }
    case _ =>
  }

  lemma {:induction false} NoneContinue(ops: Ops, stmts: seq<Stmt>, st: Store, fuel: nat)
    requires NoneContinues(stmts)
    ensures !ExecAll(ops, stmts, st, fuel).Continued?
    decreases stmts, 1
  {
    if stmts != [] {
      ExecNeverContinues(ops, stmts[0], st, fuel);
      match Exec(ops, stmts[0], st, fuel)
      case Normal(st1) => NoneContinue(ops, stmts[1..], st1, fuel);
      case _ =>
    }
  }

  lemma {:induction false} ArmsNeverContinue(ops: Ops, arms: seq<Arm>, k: nat, st: Store, fuel: nat)
    requires NoArmContinues(arms)
    ensures !ExecArms(ops, arms, k, st, fuel).Continued?
    decreases arms, if k <= |arms| then |arms| - k else 0
  {
    if k < |arms| {
      ArmNeverContinues(arms, k);
      NoneContinue(ops, arms[k].code, st, fuel);
      match ExecAll(ops, arms[k].code, st, fuel)
      case Normal(st1) => ArmsNeverContinue(ops, arms, k + 1, st1, fuel);
      case _ =>
    }
  }

  lemma {:induction false} ArmNeverContinues(arms: seq<Arm>, k: nat)
    requires NoArmContinues(arms) && k < |arms|
    ensures NoneContinues(arms[k].code)
  {
    if k > 0 {
      ArmNeverContinues(arms[1..], k - 1);
    }
  }

  /** A body that always leaves makes no further turn follow. */
  lemma {:induction false} ExecLeaves(ops: Ops, s: Stmt, st: Store, fuel: nat)
    requires AlwaysLeaves(s)
    ensures !Exec(ops, s, st, fuel).Normal? && !Exec(ops, s, st, fuel).Continued?
    decreases s, 0
  {
    hide Eval, Declare;
    match s
    case Block(stmts) => AllLeave(ops, stmts, st, fuel);
    case If(cond, yes, no) =>
      var r := CondValue(ops, cond, st);
      if r.Val? {
        ExecLeaves(ops, yes, r.st, fuel);
        ExecLeaves(ops, no, r.st, fuel);
      }
    case _ =>
  }

  lemma {:induction false} AllLeave(ops: Ops, stmts: seq<Stmt>, st: Store, fuel: nat)
    requires SomeLeaves(stmts)
    ensures !ExecAll(ops, stmts, st, fuel).Normal? && !ExecAll(ops, stmts, st, fuel).Continued?
    decreases stmts, 1
  {
    if AlwaysLeaves(stmts[0]) {
      ExecLeaves(ops, stmts[0], st, fuel);
    } else {
      ExecNeverContinues(ops, stmts[0], st, fuel);
      match Exec(ops, stmts[0], st, fuel)
      case Normal(st1) => AllLeave(ops, stmts[1..], st1, fuel);
      case _ =>
    }
  }
}
