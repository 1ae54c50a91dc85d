/** Rewriting keeps the meaning of every program whose declaring loops meet a condition on their
    text: each run ends in the same way and in the same store. A while statement whose condition
    declares a variable is not kept in general, but it is if no turn changes what the initialiser
    computes, or if no second turn follows. */
module StatementLaws {
  import opened Options
  import opened Statements
  import opened StatementRewrite
  import opened StoreLaws

  /** What a for statement declares in its condition is not mentioned before it is in scope, and a
      while statement that declares its variable is one of those that are kept. */
  ghost predicate Rewritable(s: Stmt) {
    match s
    case Block(stmts) => forall t <- stmts :: Rewritable(t)
    case If(_, yes, no) => Rewritable(yes) && Rewritable(no)
    case While(cond, body) => Rewritable(body) && (cond.Declares? ==> Kept(cond.x, cond.init, body))
    case DoWhile(body, _) => Rewritable(body)
    case For(init, cond, _, body) =>
      && Rewritable(body)
      && (cond.Declares? ==> cond.x !in MentionedInSimple(init) && cond.x !in Mentioned(cond.init))
    case Switch(_, arms) => RewritableArms(arms)
    case _ => true
  }

  ghost predicate RewritableArms(arms: seq<Arm>) {
    arms == [] || ((forall t <- arms[0].code :: Rewritable(t)) && RewritableArms(arms[1..]))
  }

  /** No turn changes what the initialiser computes: it assigns nothing and does not mention the
      name that it is for, and the body touches neither that name nor those it mentions. */
  ghost predicate Steady(x: string, e: Expr, body: Stmt) {
    && Pure(e) && x !in Mentioned(e) && Untouched(x, body)
    && forall n <- Mentioned(e) :: Untouched(n, body)
  }

  /** Evaluating the initialiser once is enough: no turn changes it, or every turn leaves the loop,
      or there is no turn. */
  ghost predicate Kept(x: string, e: Expr, body: Stmt) {
    Steady(x, e, body) || AlwaysLeaves(body) || e == Const(0)
  }

  // ---- Preservation ------------------------------------------------------------------------

  lemma {:induction false} DeclaredAdjusted(stmts: seq<Stmt>)
    ensures DeclaredIn(AdjustAll(stmts)) == DeclaredIn(stmts)
  {
    if stmts != [] {
      DeclaredAdjusted(stmts[1..]);
      assert AdjustAll(stmts)[1..] == AdjustAll(stmts[1..]);
    }
  }

  lemma {:induction false} DeclaredAdjustedArms(arms: seq<Arm>)
    ensures DeclaredInArms(AdjustArms(arms)) == DeclaredInArms(arms)
  {
    if arms != [] {
      DeclaredAdjusted(arms[0].code);
      DeclaredAdjustedArms(arms[1..]);
      assert AdjustArms(arms)[1..] == AdjustArms(arms[1..]);
    }
  }

  /** Rewriting does not change how a run ends, nor the store it ends in. */
  lemma {:induction false} Preserved(ops: Ops, s: Stmt, st: Store, fuel: nat)
    requires Rewritable(s)
    ensures Exec(ops, Adjust(s), st, fuel) == Exec(ops, s, st, fuel)
    decreases fuel, s, 0
  {
    match s
    case Block(stmts) =>
      AllPreserved(ops, stmts, st, fuel);
      DeclaredAdjusted(stmts);
    case If(Test(e), yes, no) =>
      match Eval(ops, e, st) {
        case Undefined =>
        case Val(_, st1) =>
          ScopedPreserved(ops, yes, st1, fuel);
          ScopedPreserved(ops, no, st1, fuel);
      }
    case If(Declares(x, e), yes, no) =>
      DeclaredFirst(ops, x, e, If(Test(Var(x)), Adjust(yes), Adjust(no)), st, fuel);
      match Declare(ops, x, e, st) {
        case Undefined =>
        case Val(v, st1) =>
          ScopedPreserved(ops, yes, st1, fuel);
          ScopedPreserved(ops, no, st1, fuel);
      }
    case While(Test(e), body) =>
      LoopPreserved(ops, e, Const(0), body, st, fuel);
    case While(Declares(x, e), body) =>
      WhilePreserved(ops, x, e, body, st, fuel);
    case DoWhile(body, test) =>
      DoLoopPreserved(ops, body, test, st, fuel);
    case For(init, Test(e), inc, body) =>
      ForBlock(ops, init, Test(e), inc, Adjust(body), st, fuel);
      match RunSimple(ops, init, st) {
        case Normal(st1) => LoopPreserved(ops, e, inc, body, st1, fuel);
        case _ =>
      }
    case For(init, Declares(x, e), inc, body) =>
      ForDeclaresPreserved(ops, init, x, e, inc, body, st, fuel);
    case Switch(Test(e), arms) =>
      match Eval(ops, e, st) {
        case Undefined =>
        case Val(v, st1) => SwitchPreserved(ops, arms, v, st1, fuel);
      }
    case Switch(Declares(x, e), arms) =>
      DeclaredFirst(ops, x, e, Switch(Test(Var(x)), AdjustArms(arms)), st, fuel);
      match Declare(ops, x, e, st) {
        case Undefined =>
        case Val(v, st1) => SwitchPreserved(ops, arms, v, st1, fuel);
      }
    case _ =>
  }

  lemma {:induction false} AllPreserved(ops: Ops, stmts: seq<Stmt>, st: Store, fuel: nat)
    requires forall t <- stmts :: Rewritable(t)
    ensures ExecAll(ops, AdjustAll(stmts), st, fuel) == ExecAll(ops, stmts, st, fuel)
    decreases fuel, stmts, 0
  {
    if stmts != [] {
      Preserved(ops, stmts[0], st, fuel);
      assert AdjustAll(stmts)[1..] == AdjustAll(stmts[1..]);
      match Exec(ops, stmts[0], st, fuel)
      case Normal(st1) => AllPreserved(ops, stmts[1..], st1, fuel);
      case _ =>
    }
  }

  lemma {:induction false} ScopedPreserved(ops: Ops, s: Stmt, st: Store, fuel: nat)
    requires Rewritable(s)
    ensures ExecScoped(ops, Adjust(s), st, fuel) == ExecScoped(ops, s, st, fuel)
    decreases fuel, s, 1
  {
    Preserved(ops, s, st, fuel);
    assert Declared(Adjust(s)) == Declared(s);
  }

  /** A declaration in front of a statement, in a block of their own. */
  lemma DeclaredFirst(ops: Ops, x: string, e: Expr, s: Stmt, st: Store, fuel: nat)
    requires Declared(s) == {}
    ensures Declare(ops, x, e, st).Undefined? ==> Exec(ops, Block([Declaration(x, Some(e)), s]), st, fuel) == Stuck
    ensures Declare(ops, x, e, st).Val? ==>
      Exec(ops, Block([Declaration(x, Some(e)), s]), st, fuel) ==
        Leave(Exec(ops, s, Declare(ops, x, e, st).st, fuel), st, {x})
  {
    hide Eval, Declare, Restore, Loop, ExecAll;
    assert {x} + {} == {x};
    var d := Declaration(x, Some(e));
    PairInBlock(ops, d, s, st, fuel);
    OneDeclared(ops, x, Some(e), st);
  }

  lemma OneDeclared(ops: Ops, x: string, init: Option<Expr>, st: Store)
    ensures Declared(Declaration(x, init)) == {x}
    ensures init.None? ==> RunSimple(ops, Decls([Declarator(x, init)]), st) == Normal(st - {x})
    ensures init.Some? ==> RunSimple(ops, Decls([Declarator(x, init)]), st) == Bound(Declare(ops, x, init.value, st))
  {
    var ds := [Declarator(x, init)];
    assert ds[1..] == [];
    assert ds[0] in ds && Names(ds) == {x};
    if init.Some? && Declare(ops, x, init.value, st).Val? {
      assert DeclareAll(ops, ds[1..], Declare(ops, x, init.value, st).st) == Normal(Declare(ops, x, init.value, st).st);
    } else if init.None? {
      assert DeclareAll(ops, ds[1..], st - {x}) == Normal(st - {x});
    }
  }

  function Bound(r: Evaluated): Outcome {
    if r.Val? then Normal(r.st) else Stuck
  }

  lemma PairInBlock(ops: Ops, s: Stmt, t: Stmt, st: Store, fuel: nat)
    ensures Exec(ops, Block([s, t]), st, fuel) ==
      var o := Exec(ops, s, st, fuel);
      Leave(if o.Normal? then Exec(ops, t, o.st, fuel) else o, st, Declared(s) + Declared(t))
  {
    assert [s, t][1..] == [t] && [t][1..] == [];
    assert DeclaredIn([t]) == Declared(t);
    assert DeclaredIn([s, t]) == Declared(s) + Declared(t);
    match Exec(ops, s, st, fuel)
    case Normal(st1) =>
      assert ExecAll(ops, [s, t], st, fuel) == ExecAll(ops, [t], st1, fuel);
      assert ExecAll(ops, [t], st1, fuel) == Exec(ops, t, st1, fuel);
    case _ =>
  }

  /** Moving the first part of a for statement in front of it, in a block of their own. */
  lemma ForBlock(ops: Ops, init: Simple, cond: Cond, inc: Expr, body: Stmt, st: Store, fuel: nat)
    ensures Exec(ops, Block([Plain(init), For(Nil, cond, inc, body)]), st, fuel) ==
      Exec(ops, For(init, cond, inc, body), st, fuel)
  {
    PairInBlock(ops, Plain(init), For(Nil, cond, inc, body), st, fuel);
    assert Declared(Plain(init)) + Declared(For(Nil, cond, inc, body)) == Declared(Plain(init));
    match RunSimple(ops, init, st)
    case Normal(st1) => LeaveNothing(Loop(ops, cond, inc, body, st1, fuel), st1);
    case _ =>
  }

  lemma {:induction false} TurnPreserved(ops: Ops, inc: Expr, body: Stmt, st: Store, fuel: nat)
    requires Rewritable(body)
    ensures Turn(ops, inc, Adjust(body), st, fuel) == Turn(ops, inc, body, st, fuel)
    decreases fuel, body, 2
  {
    ScopedPreserved(ops, body, st, fuel);
  }

  lemma TestingLoop(ops: Ops, e: Expr, inc: Expr, body: Stmt, st: Store, fuel: nat)
    ensures Loop(ops, Test(e), inc, body, st, fuel) ==
      var r := Eval(ops, e, st);
      if r.Undefined? then Stuck
      else if r.v == 0 then Normal(r.st)
      else if fuel == 0 then Timeout
      else
        var turn := Turn(ops, inc, body, r.st, fuel);
        if turn.Normal? then Loop(ops, Test(e), inc, body, turn.st, fuel - 1) else Ended(turn)
  {
    hide Turn, Eval, Exec, ExecScoped;
  }

  /** What follows the first turn of a loop that tests last. */
  function AfterBody(ops: Ops, body: Stmt, test: Expr, o: Outcome, fuel: nat): Outcome
    requires fuel > 0
  {
    if !(o.Normal? || o.Continued?) then Ended(o)
    else
      var r := Eval(ops, test, o.st);
      if r.Undefined? then Stuck
      else if r.v == 0 then Normal(r.st)
      else DoLoop(ops, body, test, r.st, fuel - 1)
  }

  lemma BodyFirstLoop(ops: Ops, body: Stmt, test: Expr, st: Store, fuel: nat)
    requires fuel > 0
    ensures DoLoop(ops, body, test, st, fuel) == AfterBody(ops, body, test, ExecScoped(ops, body, st, fuel), fuel)
  {
    hide Eval, Exec, ExecScoped;
  }

  lemma {:induction false} LoopPreserved(ops: Ops, e: Expr, inc: Expr, body: Stmt, st: Store, fuel: nat)
    requires Rewritable(body)
    ensures Loop(ops, Test(e), inc, Adjust(body), st, fuel) == Loop(ops, Test(e), inc, body, st, fuel)
    decreases fuel, body, 3
  {
    hide Turn, Eval, Adjust, Exec, ExecScoped, Rewritable, Loop, Ended;
    TestingLoop(ops, e, inc, body, st, fuel);
    TestingLoop(ops, e, inc, Adjust(body), st, fuel);
    var r := Eval(ops, e, st);
    if r.Val? && r.v != 0 && fuel > 0 {
      TurnPreserved(ops, inc, body, r.st, fuel);
      var turn := Turn(ops, inc, body, r.st, fuel);
      if turn.Normal? {
        LoopPreserved(ops, e, inc, body, turn.st, fuel - 1);
      }
    }
  }

  lemma DeclaringLoop(ops: Ops, x: string, e: Expr, inc: Expr, body: Stmt, st: Store, fuel: nat)
    ensures Loop(ops, Declares(x, e), inc, body, st, fuel) ==
      var r := Declare(ops, x, e, st);
      if r.Undefined? then Stuck
      else if r.v == 0 then Normal(Restore(st, r.st, {x}))
      else if fuel == 0 then Timeout
      else
        var turn := Leave(Turn(ops, inc, body, r.st, fuel), st, {x});
        if turn.Normal? then Loop(ops, Declares(x, e), inc, body, turn.st, fuel - 1) else Ended(turn)
  {
    hide Turn, Declare, Exec, ExecScoped;
  }

  /** A while statement whose condition declares a variable, kept for a reason in its text. */
  lemma {:induction false} WhilePreserved(ops: Ops, x: string, e: Expr, body: Stmt, st: Store, fuel: nat)
    requires Rewritable(body) && Kept(x, e, body)
    ensures Exec(ops, Adjust(While(Declares(x, e), body)), st, fuel) == Exec(ops, While(Declares(x, e), body), st, fuel)
    decreases fuel, body, 5
  {
    var w := While(Test(Var(x)), Adjust(body));
    DeclaredFirst(ops, x, e, w, st, fuel);
    DeclaringLoop(ops, x, e, Const(0), body, st, fuel);
    hide Eval, Declare, Turn, Loop, Rewritable;
    var r := Declare(ops, x, e, st);
    if r.Val? {
      if Steady(x, e, body) {
        SteadyStart(ops, x, e, st);
        SteadyLoop(ops, x, e, body, st, r.st, r.v, fuel);
      } else {
        TurnsEnd(ops, x, e, body, st, fuel);
        OneTest(ops, x, e, body, st, fuel);
      }
    }
  }

  lemma TurnsEnd(ops: Ops, x: string, e: Expr, body: Stmt, st: Store, fuel: nat)
    requires AlwaysLeaves(body) || e == Const(0)
    ensures var r := Declare(ops, x, e, st);
      r.Undefined? || r.v == 0 || !Turn(ops, Const(0), body, r.st, fuel).Normal?
  {
    hide Exec;
    var r := Declare(ops, x, e, st);
    if r.Val? && AlwaysLeaves(body) {
      ExecLeaves(ops, body, r.st, fuel);
    }
  }

  lemma SteadyStart(ops: Ops, x: string, e: Expr, st: Store)
    requires Pure(e) && Declare(ops, x, e, st).Val?
    ensures Declare(ops, x, e, st) == Val(Declare(ops, x, e, st).v, st[x := Declare(ops, x, e, st).v])
  {
    EvalPure(ops, e, st - {x}, st - {x});
    var v := Declare(ops, x, e, st).v;
    assert (st - {x})[x := v] == st[x := v];
  }

  /** Declared anew in every turn, the variable has the value it was first given. */
  lemma {:induction false} SteadyLoop(ops: Ops, x: string, e: Expr, body: Stmt, s: Store, t: Store, v: int, fuel: nat)
    requires Rewritable(body) && Steady(x, e, body)
    requires t == s[x := v] && Declare(ops, x, e, s) == Val(v, t)
    ensures Leave(Loop(ops, Test(Var(x)), Const(0), Adjust(body), t, fuel), s, {x}) ==
      Loop(ops, Declares(x, e), Const(0), body, s, fuel)
    decreases fuel, body, 4
  {
    hide Eval, Declare, Turn, Loop, Rewritable, Steady, Adjust, Restore, Ended, SameAt, Exec, ExecScoped;
    DeclaredValue(ops, x, e, s);
    TestingLoop(ops, Var(x), Const(0), Adjust(body), t, fuel);
    DeclaringLoop(ops, x, e, Const(0), body, s, fuel);
    if v == 0 || fuel == 0 {
      return;
    }
    TurnPreserved(ops, Const(0), body, t, fuel);
    var turn := Turn(ops, Const(0), body, t, fuel);
    if turn.Normal? {
      SteadyTurn(ops, x, e, body, s, v, fuel);
      var s2 := Restore(s, turn.st, {x});
      SteadyLoop(ops, x, e, body, s2, turn.st, v, fuel - 1);
      LeaveSameOuter(x, Loop(ops, Test(Var(x)), Const(0), Adjust(body), turn.st, fuel - 1), s, s2);
    } else {
      LeaveEnded(turn, s, {x});
    }
  }

  lemma SteadyTurn(ops: Ops, x: string, e: Expr, body: Stmt, s: Store, v: int, fuel: nat)
    requires Steady(x, e, body) && Declare(ops, x, e, s) == Val(v, s[x := v])
    requires Turn(ops, Const(0), body, s[x := v], fuel).Normal?
    ensures var t2 := Turn(ops, Const(0), body, s[x := v], fuel).st; var s2 := Restore(s, t2, {x});
      t2 == s2[x := v] && Declare(ops, x, e, s2) == Val(v, t2) && SameAt(x, s, s2)
  {
    hide Turn, Restore, Untouched;
    var t := s[x := v];
    var t2 := Turn(ops, Const(0), body, t, fuel).st;
    var s2 := Restore(s, t2, {x});
    TurnKeeps(ops, Const(0), body, x, t, fuel);
    RestoreOff(x, s, t2);
    BindBoth(x, v, s2, t2);
    assert t2[x := v] == t2;
    forall n <- Mentioned(e) ensures SameAt(n, s2 - {x}, s - {x}) {
      TurnKeeps(ops, Const(0), body, n, t, fuel);
      Agreement(x, s2, t2);
    }
    EvalPure(ops, e, s2 - {x}, s - {x});
    assert (s2 - {x})[x := v] == s2[x := v];
  }

  lemma {:induction false} DoLoopPreserved(ops: Ops, body: Stmt, test: Expr, st: Store, fuel: nat)
    requires Rewritable(body)
    ensures DoLoop(ops, Adjust(body), test, st, fuel) == DoLoop(ops, body, test, st, fuel)
    decreases fuel, body, 4
  {
    if fuel > 0 {
      hide Eval, Adjust, Exec, ExecScoped, Rewritable, DoLoop, AfterBody, Ended;
      BodyFirstLoop(ops, body, test, st, fuel);
      BodyFirstLoop(ops, Adjust(body), test, st, fuel);
      ScopedPreserved(ops, body, st, fuel);
      AfterBodyPreserved(ops, body, test, ExecScoped(ops, body, st, fuel), fuel);
    }
  }

  lemma {:induction false} AfterBodyPreserved(ops: Ops, body: Stmt, test: Expr, o: Outcome, fuel: nat)
    requires Rewritable(body) && fuel > 0
    ensures AfterBody(ops, Adjust(body), test, o, fuel) == AfterBody(ops, body, test, o, fuel)
    decreases fuel, body, 3
  {
    hide DoLoop, Rewritable, Adjust, Eval;
    if o.Normal? || o.Continued? {
      var r := Eval(ops, test, o.st);
      if r.Val? && r.v != 0 {
        DoLoopPreserved(ops, body, test, r.st, fuel - 1);
      }
    }
  }

  /** A while statement is kept in a run that never gets to a second test: the declared value is
      zero, or the first turn leaves the loop. */
  lemma {:induction false} OneTest(ops: Ops, x: string, e: Expr, body: Stmt, st: Store, fuel: nat)
    requires Rewritable(body)
    requires var r := Declare(ops, x, e, st);
      r.Undefined? || r.v == 0 || !Turn(ops, Const(0), body, r.st, fuel).Normal?
    ensures Exec(ops, Adjust(While(Declares(x, e), body)), st, fuel) == Exec(ops, While(Declares(x, e), body), st, fuel)
    decreases fuel, body, 4
  {
    hide Turn, Eval, Declare, ExecScoped, Rewritable, Restore, Loop;
    DeclaringLoop(ops, x, e, Const(0), body, st, fuel);
    var w := While(Test(Var(x)), Adjust(body));
    DeclaredFirst(ops, x, e, w, st, fuel);
    var r := Declare(ops, x, e, st);
    if r.Val? {
      DeclaredValue(ops, x, e, st);
      TurnPreserved(ops, Const(0), body, r.st, fuel);
      TestingLoop(ops, Var(x), Const(0), Adjust(body), r.st, fuel);
      LeaveEnded(Turn(ops, Const(0), body, r.st, fuel), st, {x});
    }
  }

  lemma DeclaredValue(ops: Ops, x: string, e: Expr, st: Store)
    requires Declare(ops, x, e, st).Val?
    ensures Eval(ops, Var(x), Declare(ops, x, e, st).st) == Declare(ops, x, e, st)
  {}

  lemma LeaveEnded(turn: Outcome, outer: Store, names: set<string>)
    ensures Leave(Ended(turn), outer, names) == Ended(Leave(turn, outer, names))
  {}

  /** A for statement whose condition declares a variable: in every turn the rewritten loop
      assigns the hoisted variable, which only the rest of the turn sees. */
  lemma {:induction false} ForDeclaresPreserved(ops: Ops, init: Simple, x: string, e: Expr, inc: Expr, body: Stmt,
      st: Store, fuel: nat)
    requires Rewritable(For(init, Declares(x, e), inc, body))
    ensures Exec(ops, Adjust(For(init, Declares(x, e), inc, body)), st, fuel) ==
      Exec(ops, For(init, Declares(x, e), inc, body), st, fuel)
    decreases fuel, body, 4
  {
    hide Eval, ExecScoped, Restore, Loop, Turn, AgreeOff;
    var inner := For(init, Test(Assign(x, e)), inc, Adjust(body));
    var block := Block([Plain(init), For(Nil, Test(Assign(x, e)), inc, Adjust(body))]);
    PairInBlock(ops, Declaration(x, None), block, st, fuel);
    OneDeclared(ops, x, None, st);
    ForBlock(ops, init, Test(Assign(x, e)), inc, Adjust(body), st - {x}, fuel);
    assert Declared(Declaration(x, None)) + Declared(block) == {x};
    assert Exec(ops, Adjust(For(init, Declares(x, e), inc, body)), st, fuel) ==
      Leave(Exec(ops, inner, st - {x}, fuel), st, {x});
    assert (st - {x}) - {x} == st - {x};
    RunSimpleOff(ops, init, x, st, st - {x});
    match RunSimple(ops, init, st)
    case Normal(st1) =>
      var st2 := RunSimple(ops, init, st - {x}).st;
      HoistedLoop(ops, x, e, inc, body, st1, st2, fuel);
      var o, p := Loop(ops, Declares(x, e), inc, body, st1, fuel), Loop(ops, Test(Assign(x, e)), inc, Adjust(body),
          st2, fuel);
      if init.Decls? {
        NamesMentioned(init.ds, x);
      }
      assert KeepsAt(x, o, st);
      LeaveHoisted(x, st, o, p, Declared(Plain(init)));
    case _ =>
  }

  /** Declaring a name anew and assigning to it are the same, if the value does not mention it. */
  lemma DeclareOrAssign(ops: Ops, x: string, e: Expr, s: Store, t: Store)
    requires x !in Mentioned(e) && AgreeOff(x, s, t)
    ensures Declare(ops, x, e, s) == Eval(ops, Assign(x, e), t)
  {
    assert (s - {x}) - {x} == s - {x};
    EvalOff(ops, e, x, s - {x}, t);
    if Eval(ops, e, t).Val? {
      BindBoth(x, Eval(ops, e, t).v, Eval(ops, e, s - {x}).st, Eval(ops, e, t).st);
    }
  }

  lemma {:induction false} HoistedLoop(ops: Ops, x: string, e: Expr, inc: Expr, body: Stmt, s: Store, t: Store,
      fuel: nat)
    requires Rewritable(body) && x !in Mentioned(e) && AgreeOff(x, s, t)
    ensures AlikeOff(x, Loop(ops, Declares(x, e), inc, body, s, fuel),
                     Loop(ops, Test(Assign(x, e)), inc, Adjust(body), t, fuel))
    ensures KeepsAt(x, Loop(ops, Declares(x, e), inc, body, s, fuel), s)
    decreases fuel, body, 3
  {
    hide Turn, Eval, Declare, Adjust, Exec, ExecScoped, Restore, Mentioned, Rewritable, Loop, Ended, AgreeOff;
    DeclareOrAssign(ops, x, e, s, t);
    DeclaringLoop(ops, x, e, inc, body, s, fuel);
    TestingLoop(ops, Assign(x, e), inc, Adjust(body), t, fuel);
    var r := Declare(ops, x, e, s);
    if r.Undefined? || (r.v != 0 && fuel == 0) {
      return;
    }
    if r.v == 0 {
      RestoreOff(x, s, r.st);
      return;
    }
    TurnPreserved(ops, inc, body, r.st, fuel);
    var turn := Turn(ops, inc, body, r.st, fuel);
    LeaveOff(x, s, turn);
    if turn.Normal? {
      HoistedLoop(ops, x, e, inc, body, Leave(turn, s, {x}).st, turn.st, fuel - 1);
    } else {
      EndedOff(x, Leave(turn, s, {x}), turn, s);
    }
  }

  lemma EndedOff(x: string, o: Outcome, p: Outcome, st: Store)
    requires AlikeOff(x, o, p) && KeepsAt(x, o, st)
    ensures AlikeOff(x, Ended(o), Ended(p)) && KeepsAt(x, Ended(o), st)
  {}

  lemma {:induction false} TagsAdjusted(arms: seq<Arm>, k: nat)
    requires k < |arms|
    ensures AdjustArms(arms)[k] == Arm(arms[k].tag, AdjustAll(arms[k].code))
  {
    if k > 0 {
      TagsAdjusted(arms[1..], k - 1);
    }
  }

  lemma {:induction false} LabelledAdjusted(arms: seq<Arm>, tag: Option<int>, k: nat)
    ensures Labelled(AdjustArms(arms), tag, k) == Labelled(arms, tag, k)
    decreases |arms| - k
  {
    if k < |arms| {
      TagsAdjusted(arms, k);
      LabelledAdjusted(arms, tag, k + 1);
    }
  }

  lemma {:induction false} ArmRewritable(arms: seq<Arm>, k: nat)
    requires RewritableArms(arms) && k < |arms|
    ensures forall t <- arms[k].code :: Rewritable(t)
  {
    if k > 0 {
      ArmRewritable(arms[1..], k - 1);
    }
  }

  lemma {:induction false} SwitchPreserved(ops: Ops, arms: seq<Arm>, v: int, st: Store, fuel: nat)
    requires RewritableArms(arms)
    ensures ExecSwitch(ops, AdjustArms(arms), v, st, fuel) == ExecSwitch(ops, arms, v, st, fuel)
    decreases fuel, arms, |arms| + 1
  {
    DeclaredAdjustedArms(arms);
    LabelledAdjusted(arms, Some(v), 0);
    LabelledAdjusted(arms, None, 0);
    ArmsPreserved(ops, arms, Selected(arms, v), st - DeclaredInArms(arms), fuel);
  }

  lemma {:induction false} ArmsPreserved(ops: Ops, arms: seq<Arm>, k: nat, st: Store, fuel: nat)
    requires RewritableArms(arms)
    ensures ExecArms(ops, AdjustArms(arms), k, st, fuel) == ExecArms(ops, arms, k, st, fuel)
    decreases fuel, arms, if k <= |arms| then |arms| - k else 0
  {
    if k < |arms| {
      TagsAdjusted(arms, k);
      ArmRewritable(arms, k);
      AllPreserved(ops, arms[k].code, st, fuel);
      match ExecAll(ops, arms[k].code, st, fuel)
      case Normal(st1) => ArmsPreserved(ops, arms, k + 1, st1, fuel);
      case _ =>
    }
  }

  // ---- What is left, and what is not kept --------------------------------------------------

  /** No condition declares a variable, and no for statement has a first part. */
  ghost predicate Simplified(s: Stmt) {
    match s
    case Block(stmts) => forall t <- stmts :: Simplified(t)
    case If(cond, yes, no) => cond.Test? && Simplified(yes) && Simplified(no)
    case While(cond, body) => cond.Test? && Simplified(body)
    case DoWhile(body, _) => Simplified(body)
    case For(init, cond, _, body) => init.Nil? && cond.Test? && Simplified(body)
    case Switch(cond, arms) => cond.Test? && SimplifiedArms(arms)
    case _ => true
  }

  ghost predicate SimplifiedArms(arms: seq<Arm>) {
    arms == [] || ((forall t <- arms[0].code :: Simplified(t)) && SimplifiedArms(arms[1..]))
  }

  /** Rewriting leaves only statements that the later passes know, in every program. */
  lemma {:induction false} AdjustedIsSimplified(s: Stmt)
    ensures Simplified(Adjust(s))
    decreases s, 0
  {
    match s
    case Block(stmts) => AllSimplified(stmts);
    case If(_, yes, no) =>
      AdjustedIsSimplified(yes);
      AdjustedIsSimplified(no);
    case While(_, body) => AdjustedIsSimplified(body);
    case DoWhile(body, _) => AdjustedIsSimplified(body);
    case For(_, _, _, body) => AdjustedIsSimplified(body);
    case Switch(_, arms) => ArmsSimplified(arms);
    case _ =>
  }

  lemma {:induction false} AllSimplified(stmts: seq<Stmt>)
    ensures forall t <- AdjustAll(stmts) :: Simplified(t)
    decreases stmts, 1
  {
    if stmts != [] {
      AdjustedIsSimplified(stmts[0]);
      AllSimplified(stmts[1..]);
    }
  }

  lemma {:induction false} ArmsSimplified(arms: seq<Arm>)
    ensures SimplifiedArms(AdjustArms(arms))
    decreases arms, 1
  {
    if arms != [] {
      AllSimplified(arms[0].code);
      ArmsSimplified(arms[1..]);
      assert AdjustArms(arms)[1..] == AdjustArms(arms[1..]);
    }
  }

  /** `while(int x = n) n = 0;` */
  function Countdown(): Stmt {
    While(Declares("x", Var("n")), Plain(Expression(Assign("n", Const(0)))))
  }

  /** A while statement that declares its variable evaluates the initialiser before every turn;
      rewritten it does so once. From n = 1 the one ends with n = 0, the other never ends. */
  lemma WhileDeclaresNotPreserved(ops: Ops, fuel: nat)
    requires fuel >= 1
    ensures Exec(ops, Countdown(), map["n" := 1], fuel) == Normal(map["n" := 0])
    ensures Exec(ops, Adjust(Countdown()), map["n" := 1], fuel) == Timeout
  {
    var st, st1 := map["n" := 1], map["n" := 1, "x" := 1];
    var w := While(Test(Var("x")), Countdown().body);
    CountdownEnds(ops, fuel);
    assert Exec(ops, Countdown(), st, fuel) == Loop(ops, Declares("x", Var("n")), Const(0), Countdown().body, st, fuel);
    assert Adjust(Countdown()) == Block([Declaration("x", Some(Var("n"))), w]);
    DeclaredFirst(ops, "x", Var("n"), w, st, fuel);
    assert Declare(ops, "x", Var("n"), st) == Val(1, st1) by {
      assert Eval(ops, Var("n"), st - {"x"}) == Val(1, st - {"x"});
      assert (st - {"x"})["x" := 1] == st1;
    }
    CountdownHangs(ops, st1, fuel);
    assert Exec(ops, w, st1, fuel) == Loop(ops, Test(Var("x")), Const(0), Countdown().body, st1, fuel);
  }

  lemma CountdownTurn(ops: Ops, st: Store, fuel: nat)
    ensures Turn(ops, Const(0), Countdown().body, st, fuel) == Normal(st["n" := 0])
  {
    var body := Countdown().body;
    LeaveNothing(Normal(st["n" := 0]), st);
    assert body == Plain(Expression(Assign("n", Const(0))));
    assert Eval(ops, Const(0), st) == Val(0, st);
    assert Eval(ops, Assign("n", Const(0)), st) == Val(0, st["n" := 0]);
    assert Exec(ops, body, st, fuel) == RunSimple(ops, body.simple, st) == Normal(st["n" := 0]);
    assert ExecScoped(ops, body, st, fuel) == Normal(st["n" := 0]);
    assert Eval(ops, Const(0), st["n" := 0]) == Val(0, st["n" := 0]);
  }

  lemma CountdownEnds(ops: Ops, fuel: nat)
    requires fuel >= 1
    ensures Loop(ops, Declares("x", Var("n")), Const(0), Countdown().body, map["n" := 1], fuel) == Normal(map["n" := 0])
  {
    hide Turn, Exec, ExecScoped;
    var st := map["n" := 1];
    var bound := map["n" := 1, "x" := 1];
    assert (st - {"x"})["x" := 1] == bound;
    CountdownTurn(ops, bound, fuel);
    var after := map["n" := 0];
    assert Restore(st, bound["n" := 0], {"x"}) == after;
    assert Restore(after, (after - {"x"})["x" := 0], {"x"}) == after;
    assert Loop(ops, Declares("x", Var("n")), Const(0), Countdown().body, after, fuel - 1) == Normal(after);
  }

  lemma {:induction false} CountdownHangs(ops: Ops, st: Store, fuel: nat)
    requires "x" in st && st["x"] == 1
    ensures Loop(ops, Test(Var("x")), Const(0), Countdown().body, st, fuel) == Timeout
    decreases fuel
  {
    hide Turn, Exec, ExecScoped;
    if fuel > 0 {
      CountdownTurn(ops, st, fuel);
      CountdownHangs(ops, st["n" := 0], fuel - 1);
    }
  }
}
