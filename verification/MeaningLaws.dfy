/** What the meaning of loops and switches has to satisfy in C, whatever their parts do: the kinds of
    loops are instances of each other, and a switch falls through. */
module MeaningLaws {
  import opened Options
  import opened Statements
  import opened StoreLaws

  /** Continuing a turn is ending its body: the step of a for statement is taken. */
  lemma {:induction false} ContinueTakesStep(ops: Ops, e: Expr, inc: Expr, st: Store, fuel: nat)
    ensures Loop(ops, Test(e), inc, Continue, st, fuel) == Loop(ops, Test(e), inc, Block([]), st, fuel)
    decreases fuel
  {
    var r := Eval(ops, e, st);
    if r.Val? && fuel > 0 {
      EmptyBody(ops, r.st, fuel);
      var turn := Turn(ops, inc, Continue, r.st, fuel);
      if turn.Normal? {
        ContinueTakesStep(ops, e, inc, turn.st, fuel - 1);
      }
    }
  }

  lemma EmptyBody(ops: Ops, st: Store, fuel: nat)
    ensures ExecScoped(ops, Continue, st, fuel) == Continued(st)
    ensures ExecScoped(ops, Block([]), st, fuel) == Normal(st)
  {
    LeaveNothing(Continued(st), st);
    LeaveNothing(Normal(st), st);
    assert ExecAll(ops, [], st, fuel) == Normal(st);
  }

  /** A break ends the loop, with nothing else done. */
  lemma BreakEndsLoop(ops: Ops, e: Expr, inc: Expr, st: Store, fuel: nat)
    requires Eval(ops, e, st).Val? && Eval(ops, e, st).v != 0 && fuel > 0
    ensures Loop(ops, Test(e), inc, Break, st, fuel) == Normal(Eval(ops, e, st).st)
  {
    var st1 := Eval(ops, e, st).st;
    LeaveNothing(Broke(st1), st1);
    assert ExecScoped(ops, Break, st1, fuel) == Broke(st1);
  }

  /** A do statement is its body and then a while statement. */
  lemma {:induction false} DoIsBodyThenWhile(ops: Ops, body: Stmt, e: Expr, st: Store, fuel: nat)
    ensures var first := ExecScoped(ops, body, st, fuel + 1);
      DoLoop(ops, body, e, st, fuel + 1) ==
        if first.Normal? || first.Continued? then Loop(ops, Test(e), Const(0), body, first.st, fuel) else Ended(first)
    decreases fuel
  {
    hide Eval, Exec, ExecScoped, DoLoop, Loop, Turn;
    var first := ExecScoped(ops, body, st, fuel + 1);
    DoLoopStep(ops, body, e, st, fuel + 1);
    if first.Normal? || first.Continued? {
      LoopStep(ops, e, body, first.st, fuel);
      var r := Eval(ops, e, first.st);
      if r.Val? && r.v != 0 {
        DoLoopStep(ops, body, e, r.st, fuel);
        if fuel > 0 {
          EmptyStep(ops, r.st, fuel, body);
          DoIsBodyThenWhile(ops, body, e, r.st, fuel - 1);
        }
      }
    }
  }

  lemma DoLoopStep(ops: Ops, body: Stmt, e: Expr, st: Store, fuel: nat)
    ensures DoLoop(ops, body, e, st, fuel) ==
      if fuel == 0 then Timeout
      else
        var o := ExecScoped(ops, body, st, fuel);
        if o.Normal? || o.Continued? then
          var r := Eval(ops, e, o.st);
          if r.Undefined? then Stuck
          else if r.v == 0 then Normal(r.st)
          else DoLoop(ops, body, e, r.st, fuel - 1)
        else Ended(o)
  {
    hide Eval, ExecScoped;
  }

  lemma LoopStep(ops: Ops, e: Expr, body: Stmt, st: Store, fuel: nat)
    ensures Loop(ops, Test(e), Const(0), body, st, fuel) ==
      var r := Eval(ops, e, st);
      if r.Undefined? then Stuck
      else if r.v == 0 then Normal(r.st)
      else if fuel == 0 then Timeout
      else
        var turn := Turn(ops, Const(0), body, r.st, fuel);
        if turn.Normal? then Loop(ops, Test(e), Const(0), body, turn.st, fuel - 1) else Ended(turn)
  {
    hide Eval, Turn;
  }

  lemma EmptyStep(ops: Ops, st: Store, fuel: nat, body: Stmt)
    ensures var o := ExecScoped(ops, body, st, fuel);
      Turn(ops, Const(0), body, st, fuel) == if o.Continued? then Normal(o.st) else o
  {
    hide Exec, ExecScoped;
  }

  // The step at the end of the body.
  lemma StepInBody(ops: Ops, inc: Expr, body: Stmt, st: Store, fuel: nat)
    requires Declared(body) == {} && NeverContinues(body)
    ensures Turn(ops, Const(0), Block([body, Plain(Expression(inc))]), st, fuel) == Turn(ops, inc, body, st, fuel)
  {
    hide Eval;
    var step := Plain(Expression(inc));
    var o := Exec(ops, body, st, fuel);
    LeaveNothing(o, st);
    ExecNeverContinues(ops, body, st, fuel);
    assert [body, step][1..] == [step] && [step][1..] == [];
    assert DeclaredIn([]) == {} && DeclaredIn([step]) == Declared(step) + DeclaredIn([]) == {};
    assert DeclaredIn([body, step]) == Declared(body) + DeclaredIn([step]) == {};
    var all := ExecAll(ops, [body, step], st, fuel);
    LeaveNothing(all, st);
    if o.Normal? {
      assert ExecAll(ops, [step], o.st, fuel) == RunSimple(ops, Expression(inc), o.st);
    }
    EmptyStep(ops, st, fuel, Block([body, step]));
  }

  /** A for statement is a while statement whose body ends with the step, if its body is a block
      that never continues. */
  lemma {:induction false} ForIsWhile(ops: Ops, e: Expr, inc: Expr, body: Stmt, st: Store, fuel: nat)
    requires Declared(body) == {} && NeverContinues(body)
    ensures Loop(ops, Test(e), inc, body, st, fuel) ==
      Loop(ops, Test(e), Const(0), Block([body, Plain(Expression(inc))]), st, fuel)
    decreases fuel
  {
    hide Exec, ExecScoped, Turn;
    var r := Eval(ops, e, st);
    if r.Val? && r.v != 0 && fuel > 0 {
      StepInBody(ops, inc, body, r.st, fuel);
      var turn := Turn(ops, inc, body, r.st, fuel);
      if turn.Normal? {
        ForIsWhile(ops, e, inc, body, turn.st, fuel - 1);
      }
    }
  }

  /** A switch runs the arm with its label, wherever the default arm stands, and every one behind it. */
  lemma SwitchFallsThrough(ops: Ops, other: seq<Stmt>, n: int, code: seq<Stmt>, v: int, st: Store, fuel: nat)
    requires DeclaredIn(other) == {} == DeclaredIn(code)
    ensures var o := if v == n then ExecAll(ops, code, st, fuel) else ExecAll(ops, other + code, st, fuel);
      ExecSwitch(ops, [Arm(None, other), Arm(Some(n), code)], v, st, fuel) == if o.Broke? then Normal(o.st) else o
  {
    hide Exec;
    var arms := [Arm(None, other), Arm(Some(n), code)];
    NothingDeclared(arms);
    assert st - {} == st;
    var k := if v == n then 1 else 0;
    assert Labelled(arms, Some(v), 2) == 2 && Labelled(arms, Some(v), 1) == if v == n then 1 else 2;
    assert Selected(arms, v) == k;
    ArmsInOrder(ops, arms, st, fuel);
    LeaveNothing(ExecArms(ops, arms, k, st, fuel), st);
  }

  lemma NothingDeclared(arms: seq<Arm>)
    requires |arms| == 2 && DeclaredIn(arms[0].code) == {} == DeclaredIn(arms[1].code)
    ensures DeclaredInArms(arms) == {}
  {
    assert arms[1..][1..] == [] && DeclaredInArms([]) == {};
    assert DeclaredInArms(arms[1..]) == DeclaredIn(arms[1].code) + DeclaredInArms([]);
  }

  lemma ArmsInOrder(ops: Ops, arms: seq<Arm>, st: Store, fuel: nat)
    requires |arms| == 2
    ensures ExecArms(ops, arms, 1, st, fuel) == ExecAll(ops, arms[1].code, st, fuel)
    ensures ExecArms(ops, arms, 0, st, fuel) == ExecAll(ops, arms[0].code + arms[1].code, st, fuel)
  {
    hide Exec;
    AllConcat(ops, arms[0].code, arms[1].code, st, fuel);
    var o := ExecAll(ops, arms[0].code, st, fuel);
    if o.Normal? {
      assert ExecArms(ops, arms, 1, o.st, fuel) == ExecAll(ops, arms[1].code, o.st, fuel);
    }
  }

  lemma {:induction false} AllConcat(ops: Ops, s: seq<Stmt>, t: seq<Stmt>, st: Store, fuel: nat)
    ensures var o := ExecAll(ops, s, st, fuel);
      ExecAll(ops, s + t, st, fuel) == if o.Normal? then ExecAll(ops, t, o.st, fuel) else o
  {
    hide Exec;
    if s == [] {
      assert s + t == t;
    } else {
      assert (s + t)[1..] == s[1..] + t && (s + t)[0] == s[0];
      var o := Exec(ops, s[0], st, fuel);
      if o.Normal? {
        AllConcat(ops, s[1..], t, o.st, fuel);
      }
    }
  }
}
