/** The statements that the C and C++ front ends rewrite, and what running them means. A store
    maps the names in scope that have a value; declaring a name hides an outer one, and leaving
    the scope brings the outer one back. */
module Statements {
  import opened Options

  /** Expressions may assign. What the operators compute is a parameter of the meaning. */
  datatype Expr =
    | Const(n: int)
    | Var(x: string)
    | Apply(op: nat, left: Expr, right: Expr)
    | Choose(test: Expr, yes: Expr, no: Expr)
    | Assign(x: string, e: Expr)

  datatype Declarator = Declarator(x: string, init: Option<Expr>)

  /** What may stand before the first semicolon of a for statement. */
  datatype Simple = Nil | Expression(e: Expr) | Decls(ds: seq<Declarator>)

  /** A condition is an expression or, in C++, declares a variable and tests it. */
  datatype Cond = Test(e: Expr) | Declares(x: string, init: Expr)

  datatype Stmt =
    | Plain(simple: Simple)
    | Block(stmts: seq<Stmt>)
    | If(cond: Cond, yes: Stmt, no: Stmt)
    | While(cond: Cond, body: Stmt)
    | DoWhile(body: Stmt, test: Expr)
    | For(init: Simple, cond: Cond, inc: Expr, body: Stmt)
    | Switch(cond: Cond, arms: seq<Arm>)
    | Break
    | Continue
    | Return(e: Expr)

  /** The statements after a case label, or after the default label. */
  datatype Arm = Arm(tag: Option<int>, code: seq<Stmt>)

  type Store = map<string, int>

  type Ops = (nat, int, int) -> int

  datatype Evaluated = Val(v: int, st: Store) | Undefined

  /** How a statement ends. `Stuck` stands for undefined behaviour, `Timeout` for a loop that has
      used up its fuel. */
  datatype Outcome =
    | Normal(st: Store) | Broke(st: Store) | Continued(st: Store) | Returned(value: int, st: Store)
    | Stuck
    | Timeout

  function Eval(ops: Ops, e: Expr, st: Store): Evaluated {
    match e
    case Const(n) => Val(n, st)
    case Var(x) => if x in st then Val(st[x], st) else Undefined
    case Apply(op, l, r) =>
      (match Eval(ops, l, st)
       case Undefined => Undefined
       case Val(a, st1) =>
         match Eval(ops, r, st1)
         case Undefined => Undefined
         case Val(b, st2) => Val(ops(op, a, b), st2))
    case Choose(test, yes, no) =>
      (match Eval(ops, test, st)
       case Undefined => Undefined
       case Val(a, st1) => Eval(ops, if a != 0 then yes else no, st1))
    case Assign(x, e1) =>
      match Eval(ops, e1, st)
      case Undefined => Undefined
      case Val(a, st1) => Val(a, st1[x := a])
  }

  /** Evaluates an initialiser and binds the name, which is in scope without a value before. */
  function Declare(ops: Ops, x: string, e: Expr, st: Store): Evaluated {
    match Eval(ops, e, st - {x})
    case Undefined => Undefined
    case Val(v, st1) => Val(v, st1[x := v])
  }

  function DeclareAll(ops: Ops, ds: seq<Declarator>, st: Store): (o: Outcome)
    ensures o.Normal? || o.Stuck?
  {
    if ds == [] then Normal(st)
    else
      match ds[0].init
      case None => DeclareAll(ops, ds[1..], st - {ds[0].x})
      case Some(e) =>
        match Declare(ops, ds[0].x, e, st)
        case Undefined => Stuck
        case Val(_, st1) => DeclareAll(ops, ds[1..], st1)
  }

  function RunSimple(ops: Ops, s: Simple, st: Store): (o: Outcome)
    ensures o.Normal? || o.Stuck?
  {
    match s
    case Nil => Normal(st)
    case Expression(e) =>
      (match Eval(ops, e, st)
       case Undefined => Stuck
       case Val(_, st1) => Normal(st1))
    case Decls(ds) => DeclareAll(ops, ds, st)
  }

  // ---- Scopes ------------------------------------------------------------------------------

  function Names(ds: seq<Declarator>): set<string> {
    set d | d in ds :: d.x
  }

  /** The names that a statement declares in the scope around it. */
  function Declared(s: Stmt): set<string> {
    if s.Plain? && s.simple.Decls? then Names(s.simple.ds) else {}
  }

  function DeclaredIn(stmts: seq<Stmt>): set<string> {
    if stmts == [] then {} else Declared(stmts[0]) + DeclaredIn(stmts[1..])
  }

  function DeclaredInArms(arms: seq<Arm>): set<string> {
    if arms == [] then {} else DeclaredIn(arms[0].code) + DeclaredInArms(arms[1..])
  }

  /** The inner store with these names as they are outside. */
  function Restore(outer: Store, inner: Store, names: set<string>): Store {
    (inner - names) + (map x | x in outer && x in names :: outer[x])
  }

  function Leave(o: Outcome, outer: Store, names: set<string>): Outcome {
    match o
    case Normal(st) => Normal(Restore(outer, st, names))
    case Broke(st) => Broke(Restore(outer, st, names))
    case Continued(st) => Continued(Restore(outer, st, names))
    case Returned(v, st) => Returned(v, Restore(outer, st, names))
    case _ => o
  }

  // ---- Runs --------------------------------------------------------------------------------

  /** Runs a statement; a loop makes at most as many turns as there is fuel. */
  function Exec(ops: Ops, s: Stmt, st: Store, fuel: nat): Outcome
    decreases fuel, s, 0
  {
    match s
    case Plain(simple) => RunSimple(ops, simple, st)
    case Block(stmts) => Leave(ExecAll(ops, stmts, st, fuel), st, DeclaredIn(stmts))
    case If(Test(e), yes, no) =>
      (match Eval(ops, e, st)
       case Undefined => Stuck
       case Val(v, st1) => if v != 0 then ExecScoped(ops, yes, st1, fuel) else ExecScoped(ops, no, st1, fuel))
    case If(Declares(x, e), yes, no) =>
      (match Declare(ops, x, e, st)
       case Undefined => Stuck
       case Val(v, st1) =>
         Leave(if v != 0 then ExecScoped(ops, yes, st1, fuel) else ExecScoped(ops, no, st1, fuel), st, {x}))
    case While(cond, body) => Loop(ops, cond, Const(0), body, st, fuel)
    case DoWhile(body, test) => DoLoop(ops, body, test, st, fuel)
    case For(init, cond, inc, body) =>
      (match RunSimple(ops, init, st)
       case Normal(st1) => Leave(Loop(ops, cond, inc, body, st1, fuel), st, Declared(Plain(init)))
       case o => o)
    case Switch(Test(e), arms) =>
      (match Eval(ops, e, st)
       case Undefined => Stuck
       case Val(v, st1) => ExecSwitch(ops, arms, v, st1, fuel))
    case Switch(Declares(x, e), arms) =>
      (match Declare(ops, x, e, st)
       case Undefined => Stuck
       case Val(v, st1) => Leave(ExecSwitch(ops, arms, v, st1, fuel), st, {x}))
    case Break => Broke(st)
    case Continue => Continued(st)
    case Return(e) =>
      match Eval(ops, e, st)
      case Undefined => Stuck
      case Val(v, st1) => Returned(v, st1)
  }

  /** The branches of an if statement and the bodies of loops are scopes. */
  function ExecScoped(ops: Ops, s: Stmt, st: Store, fuel: nat): Outcome
    decreases fuel, s, 1
  {
    Leave(Exec(ops, s, st, fuel), st, Declared(s))
  }

  function ExecAll(ops: Ops, stmts: seq<Stmt>, st: Store, fuel: nat): Outcome
    decreases fuel, stmts, 0
  {
    if stmts == [] then Normal(st)
    else
      match Exec(ops, stmts[0], st, fuel)
      case Normal(st1) => ExecAll(ops, stmts[1..], st1, fuel)
      case o => o
  }

  /** One turn of a loop: Normal if another one follows. */
  function Turn(ops: Ops, inc: Expr, body: Stmt, st: Store, fuel: nat): Outcome
    decreases fuel, body, 2
  {
    match ExecScoped(ops, body, st, fuel)
    case Normal(st1) => RunSimple(ops, Expression(inc), st1)
    case Continued(st1) => RunSimple(ops, Expression(inc), st1)
    case o => o
  }

  /** How a loop ends after a turn that no other one follows. */
  function Ended(turn: Outcome): Outcome {
    if turn.Broke? then Normal(turn.st) else turn
  }

  /** A loop that tests first. A variable that the condition declares is new in every turn. */
  function Loop(ops: Ops, cond: Cond, inc: Expr, body: Stmt, st: Store, fuel: nat): Outcome
    decreases fuel, body, 3
  {
    match cond
    case Test(e) =>
      var r := Eval(ops, e, st);
      if r.Undefined? then Stuck
      else if r.v == 0 then Normal(r.st)
      else if fuel == 0 then Timeout
      else
        var turn := Turn(ops, inc, body, r.st, fuel);
        if turn.Normal? then Loop(ops, cond, inc, body, turn.st, fuel - 1) else Ended(turn)
    case Declares(x, e) =>
      var r := Declare(ops, x, e, st);
      if r.Undefined? then Stuck
      else if r.v == 0 then Normal(Restore(st, r.st, {x}))
      else if fuel == 0 then Timeout
      else
        var turn := Leave(Turn(ops, inc, body, r.st, fuel), st, {x});
        if turn.Normal? then Loop(ops, cond, inc, body, turn.st, fuel - 1) else Ended(turn)
  }

  function DoLoop(ops: Ops, body: Stmt, test: Expr, st: Store, fuel: nat): Outcome
    decreases fuel, body, 3
  {
    if fuel == 0 then Timeout
    else
      var o := ExecScoped(ops, body, st, fuel);
      if o.Normal? || o.Continued? then
        var r := Eval(ops, test, o.st);
        if r.Undefined? then Stuck
        else if r.v == 0 then Normal(r.st)
        else DoLoop(ops, body, test, r.st, fuel - 1)
      else Ended(o)
  }

  /** The arm that a value selects: the first one with its label, else the first default. */
  function Labelled(arms: seq<Arm>, tag: Option<int>, k: nat): nat
    decreases |arms| - k
  {
    if k >= |arms| || arms[k].tag == tag then k else Labelled(arms, tag, k + 1)
  }

  function Selected(arms: seq<Arm>, v: int): nat {
    var k := Labelled(arms, Some(v), 0);
    if k < |arms| then k else Labelled(arms, None, 0)
  }

  /** The arms from the selected one on, in one scope, whose names have no value at first. */
  function ExecSwitch(ops: Ops, arms: seq<Arm>, v: int, st: Store, fuel: nat): Outcome
    decreases fuel, arms, |arms| + 1
  {
    match Leave(ExecArms(ops, arms, Selected(arms, v), st - DeclaredInArms(arms), fuel), st, DeclaredInArms(arms))
    case Broke(st1) => Normal(st1)
    case o => o
  }

  function ExecArms(ops: Ops, arms: seq<Arm>, k: nat, st: Store, fuel: nat): Outcome
    decreases fuel, arms, if k <= |arms| then |arms| - k else 0
  {
    if k >= |arms| then Normal(st)
    else
      match ExecAll(ops, arms[k].code, st, fuel)
      case Normal(st1) => ExecArms(ops, arms, k + 1, st1, fuel)
      case o => o
  }
}
