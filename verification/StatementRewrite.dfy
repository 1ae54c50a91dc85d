/** Rewriting statements in place (clang_c_adjust_code.cpp, clang_cpp_adjust_code.cpp): the first
    part of a for statement moves in front of it, and a condition that declares a variable
    becomes a declaration in front of the statement. */
module StatementRewrite {
  import opened Options
  import opened Statements

  /** A declaration statement for one variable. */
  function Declaration(x: string, init: Option<Expr>): Stmt {
    Plain(Decls([Declarator(x, init)]))
  }

  /** What the rewriting makes of a statement. */
  function Adjust(s: Stmt): Stmt {
    match s
    case Block(stmts) => Block(AdjustAll(stmts))
    case If(Test(e), yes, no) => If(Test(e), Adjust(yes), Adjust(no))
    case If(Declares(x, e), yes, no) =>
      Block([Declaration(x, Some(e)), If(Test(Var(x)), Adjust(yes), Adjust(no))])
    case While(Test(e), body) => While(Test(e), Adjust(body))
    case While(Declares(x, e), body) =>
      Block([Declaration(x, Some(e)), While(Test(Var(x)), Adjust(body))])
    case DoWhile(body, test) => DoWhile(Adjust(body), test)
    case For(init, Test(e), inc, body) => Block([Plain(init), For(Nil, Test(e), inc, Adjust(body))])
    case For(init, Declares(x, e), inc, body) =>
      Block([Declaration(x, None), Block([Plain(init), For(Nil, Test(Assign(x, e)), inc, Adjust(body))])])
    case Switch(Test(e), arms) => Switch(Test(e), AdjustArms(arms))
    case Switch(Declares(x, e), arms) =>
      Block([Declaration(x, Some(e)), Switch(Test(Var(x)), AdjustArms(arms))])
    case _ => s
  }

  function AdjustAll(stmts: seq<Stmt>): (r: seq<Stmt>)
    ensures |r| == |stmts|
  {
    if stmts == [] then [] else [Adjust(stmts[0])] + AdjustAll(stmts[1..])
  }

  function AdjustArms(arms: seq<Arm>): (r: seq<Arm>)
    ensures |r| == |arms|
  {
    if arms == [] then [] else [Arm(arms[0].tag, AdjustAll(arms[0].code))] + AdjustArms(arms[1..])
  }

  /** A place that holds a statement. */
  class Code {
    var code: Stmt

    constructor (code: Stmt)
      ensures this.code == code
    {
      this.code := code;
    }

    /** adjust_code: picks the rewriting for the kind of statement. */
    method AdjustCode()
      modifies this
      ensures code == Adjust(old(code))
      decreases code, 2
    {
      match code
      case If(_, _, _) => AdjustIfThenElse();
      case While(_, _) => AdjustWhile();
      case For(_, _, _, _) => AdjustFor();
      case Switch(_, _) => AdjustSwitch();
      case _ => AdjustOperands();
    }

    /** Rewrites the statements inside, whatever the condition is. */
    method AdjustOperands()
      modifies this
      ensures code == WithOperands(old(code))
      decreases code, 0
    {
      match code
      case Block(stmts) =>
        var done := AdjustSequence(stmts);
        code := Block(done);
      case If(cond, yes, no) =>
        var y := AdjustOperand(yes);
        var n := AdjustOperand(no);
        code := If(cond, y, n);
      case While(cond, body) =>
        var b := AdjustOperand(body);
        code := While(cond, b);
      case DoWhile(body, test) =>
        var b := AdjustOperand(body);
        code := DoWhile(b, test);
      case For(init, cond, inc, body) =>
        var b := AdjustOperand(body);
        code := For(init, cond, inc, b);
      case Switch(cond, arms) =>
        var done: seq<Arm> := [];
        var i := 0;
        while i < |arms|
          invariant 0 <= i <= |arms| && code == old(code)
          invariant AdjustArms(arms) == done + AdjustArms(arms[i..])
        {
          var c := AdjustSequence(arms[i].code);
          assert arms[i..][1..] == arms[i + 1..];
          done := done + [Arm(arms[i].tag, c)];
          i := i + 1;
        }
        code := Switch(cond, done);
      case _ =>
    }

    /** adjust_for: `for(a; b; c) d` becomes `{ a; for(; b; c) d }`, and before that
        `for(a; T x = e; c) d` becomes `{ T x; for(a; x = e; c) d }`. */
    method AdjustFor()
      requires code.For?
      modifies this
      ensures code == Adjust(old(code))
      ensures old(code.cond).Declares? ==>
        var x, e := old(code.cond.x), old(code.cond.init);
        var loop := For(Nil, Test(Assign(x, e)), old(code.inc), Adjust(old(code.body)));
        code == Block([Plain(Decls([Declarator(x, None)])), Block([Plain(old(code.init)), loop])])
      decreases code, 1
    {
      if code.cond.Declares? {
        var decl := Declarator(code.cond.x, Some(code.cond.init));
        code := For(code.init, Test(Assign(decl.x, decl.init.value)), code.inc, code.body);
        AdjustForTest();
        decl := decl.(init := None);
        var block := [Plain(Decls([decl]))];
        block := block + [code];
        code := Block(block);
      } else {
        AdjustForTest();
      }
    }

    method AdjustForTest()
      requires code.For? && code.cond.Test?
      modifies this
      ensures code == Adjust(old(code))
      ensures code == Block([Plain(old(code.init)), For(Nil, old(code.cond), old(code.inc), Adjust(old(code.body)))])
      decreases code.body, 4
    {
      var body := AdjustOperand(code.body);
      code := For(code.init, code.cond, code.inc, body);
      var block := [Plain(code.init)];
      code := For(Nil, code.cond, code.inc, code.body);
      block := block + [code];
      code := Block(block);
    }

    /** `if(T x = e) a else b` becomes `{ T x = e; if(x) a else b }`. */
    method AdjustIfThenElse()
      requires code.If?
      modifies this
      ensures code == Adjust(old(code))
      ensures old(code.cond).Declares? ==>
        var x, e := old(code.cond.x), old(code.cond.init);
        code == Block([Plain(Decls([Declarator(x, Some(e))])),
                       If(Test(Var(x)), Adjust(old(code.yes)), Adjust(old(code.no)))])
      decreases code, 1
    {
      var cond := code.cond;
      if cond.Declares? {
        var decl := Declaration(cond.x, Some(cond.init));
        var yes := AdjustOperand(code.yes);
        var no := AdjustOperand(code.no);
        code := If(Test(Var(cond.x)), yes, no);
        code := Block([decl, code]);
      } else {
        AdjustOperands();
      }
    }

    /** `while(T x = e) a` becomes `{ T x = e; while(x) a }`. */
    method AdjustWhile()
      requires code.While?
      modifies this
      ensures code == Adjust(old(code))
      ensures old(code.cond).Declares? ==>
        var x, e := old(code.cond.x), old(code.cond.init);
        code == Block([Plain(Decls([Declarator(x, Some(e))])), While(Test(Var(x)), Adjust(old(code.body)))])
      decreases code, 1
    {
      var cond := code.cond;
      AdjustOperands();
      if cond.Declares? {
        code := While(Test(Var(cond.x)), code.body);
        code := Block([Declaration(cond.x, Some(cond.init)), code]);
      }
    }

    /** `switch(T x = e) a` becomes `{ T x = e; switch(x) a }`. */
    method AdjustSwitch()
      requires code.Switch?
      modifies this
      ensures code == Adjust(old(code))
      ensures old(code.cond).Declares? ==>
        var x, e := old(code.cond.x), old(code.cond.init);
        code == Block([Plain(Decls([Declarator(x, Some(e))])), Switch(Test(Var(x)), AdjustArms(old(code.arms)))])
      decreases code, 1
    {
      var cond := code.cond;
      AdjustOperands();
      if cond.Declares? {
        code := Switch(Test(Var(cond.x)), code.arms);
        code := Block([Declaration(cond.x, Some(cond.init)), code]);
      }
    }
  }

  /** A statement with the statements inside it rewritten, and itself as it was. */
  function WithOperands(s: Stmt): Stmt {
    match s
    case Block(stmts) => Block(AdjustAll(stmts))
    case If(cond, yes, no) => If(cond, Adjust(yes), Adjust(no))
    case While(cond, body) => While(cond, Adjust(body))
    case DoWhile(body, test) => DoWhile(Adjust(body), test)
    case For(init, cond, inc, body) => For(init, cond, inc, Adjust(body))
    case Switch(cond, arms) => Switch(cond, AdjustArms(arms))
    case _ => s
  }

  method AdjustOperand(s: Stmt) returns (r: Stmt)
    ensures r == Adjust(s)
    decreases s, 3
  {
    var place := new Code(s);
    place.AdjustCode();
    r := place.code;
  }

  method AdjustSequence(stmts: seq<Stmt>) returns (r: seq<Stmt>)
    ensures r == AdjustAll(stmts)
    decreases stmts, 0
  {
    r := [];
    var i := 0;
    while i < |stmts|
      invariant 0 <= i <= |stmts|
      invariant AdjustAll(stmts) == r + AdjustAll(stmts[i..])
    {
      var s := AdjustOperand(stmts[i]);
      assert stmts[i..][1..] == stmts[i + 1..];
      r := r + [s];
      i := i + 1;
    }
  }
}
