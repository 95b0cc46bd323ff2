/** The integer flow language the bytecode tier accepts, and what a flow means.
    The evaluator below knows nothing of opcodes, slots or jumps. */
module FlowLanguage {
  import opened I32Arith

  /** The operator tokens; `OtherOp` is any text the operator table does not hold. */
  datatype Operator =
    | Plus | Minus | Star | Slash | Percent
    | Less | LessEq | Greater | GreaterEq | EqualEqual | BangEqual
    | AmpAmp | BarBar | AndWord | OrWord
    | Bang | OtherOp

  /** `AbsentExpr` is the child a node does not have. `OtherExpr` is every node kind the compiler
      declines, among them calls. */
  datatype Expr =
    | Number(n: int)
    | FloatLiteral
    | BoolLiteral(b: bool)
    | Identifier(name: string)
    | Binary(op: Operator, left: Expr, right: Expr)
    | Unary(uop: Operator, operand: Expr)
    | AbsentExpr
    | OtherExpr

  datatype Stmt =
    | Let(name: string, init: Expr)
    | Assign(target: string, value: Expr)
    | Return(result: Expr)
    | If(cond: Expr, thenBranch: Stmt, elseBranch: Stmt)
    | While(guard: Expr, body: Stmt)
    | Block(stmts: seq<Stmt>)
    | AbsentStmt
    | OtherStmt

  datatype Param = Param(name: string, declType: string)

  datatype Flow = Flow(params: seq<Param>, body: Stmt, declares64: bool)

  /** One flat environment for the whole flow; a variable nobody assigned reads as zero. */
  type Env = map<string, Int32>

  function Lookup(env: Env, name: string): Int32 {
    if name in env then env[name] else 0
  }

  function Truth(b: bool): Int32 {
    if b then 1 else 0
  }

  function Min(a: Int32, b: Int32): Int32 {
    if a <= b then a else b
  }

  function Max(a: Int32, b: Int32): Int32 {
    if a >= b then a else b
  }

  /** The meaning of a binary operator on evaluated operands: arithmetic is exact or traps, and the
      two connectives are the strict minimum and maximum. */
  function ApplyBinary(op: Operator, a: Int32, b: Int32): I32Result {
    match op
    case Plus => Exact(a + b)
    case Minus => Exact(a - b)
    case Star => Exact(a * b)
    case Slash => if b == 0 then Trap(DivisionByZero) else Exact(TruncQuotient(a, b))
    case Percent => if b == 0 then Trap(DivisionByZero) else Exact(RemainderJs(a, b))
    case Less => Value(Truth(a < b))
    case LessEq => Value(Truth(a <= b))
    case Greater => Value(Truth(a > b))
    case GreaterEq => Value(Truth(a >= b))
    case EqualEqual => Value(Truth(a == b))
    case BangEqual => Value(Truth(a != b))
    case AmpAmp => Value(Min(a, b))
    case AndWord => Value(Min(a, b))
    case BarBar => Value(Max(a, b))
    case OrWord => Value(Max(a, b))
    case _ => Value(0)
  }

  function ApplyUnary(op: Operator, a: Int32): I32Result {
    if op.Minus? then Exact(0 - a) else Value(Truth(a == 0))
  }

  function Eval(e: Expr, env: Env): I32Result {
    match e
    case Number(n) => if I32_MIN <= n <= I32_MAX then Value(n) else Value(0)
    case BoolLiteral(b) => Value(Truth(b))
    case Identifier(name) =>
      if name == "true" then Value(1) else if name == "false" then Value(0) else Value(Lookup(env, name))
    case Binary(op, l, r) =>
      var a := Eval(l, env);
      if a.Trap? then a else
      var b := Eval(r, env);
      if b.Trap? then b else ApplyBinary(op, a.v, b.v)
    case Unary(op, x) =>
      var a := Eval(x, env);
      if a.Trap? then a else ApplyUnary(op, a.v)
    case _ => Value(0)
  }

  /** A missing initialiser, right-hand side or return value is the constant zero. */
  function EvalOrZero(e: Expr, env: Env): I32Result {
    if e.AbsentExpr? then Value(0) else Eval(e, env)
  }

  datatype Completion =
    | Normal(env: Env, iterations: nat)
    | Returned(v: Int32)
    | Raised(kind: TrapKind)
    | LoopCapExceeded

  /** How many more loop iterations the global cap allows. */
  function Remaining(iterations: nat, cap: int): nat {
    if cap > iterations then cap - iterations else 0
  }

  /** Big-step meaning of a statement. `iterations` counts the completed loop iterations of the whole
      run; the one that takes the count past `cap` stops the flow. */
  function Exec(s: Stmt, env: Env, iterations: nat, cap: int): (c: Completion)
    ensures c.Normal? ==> iterations <= c.iterations && (c.iterations <= cap || c.iterations == iterations)
    decreases Remaining(iterations, cap), s, 1
  {
    match s
    case Let(name, init) => Store(name, EvalOrZero(init, env), env, iterations)
    case Assign(name, value) => Store(name, EvalOrZero(value, env), env, iterations)
    case Return(result) =>
      var r := EvalOrZero(result, env);
      if r.Trap? then Raised(r.kind) else Returned(r.v)
    case If(cond, thenBranch, elseBranch) =>
      var r := Eval(cond, env);
      if r.Trap? then Raised(r.kind)
      else if r.v != 0 then Exec(thenBranch, env, iterations, cap)
      else Exec(elseBranch, env, iterations, cap)
    case While(guard, body) =>
      var r := Eval(guard, env);
      if r.Trap? then Raised(r.kind)
      else if r.v == 0 then Normal(env, iterations)
      else
        var c := Exec(body, env, iterations, cap);
        if !c.Normal? then c
        else if c.iterations + 1 > cap then LoopCapExceeded
        else Exec(s, c.env, c.iterations + 1, cap)
    case Block(stmts) => ExecBlock(stmts, env, iterations, cap)
    case _ => Normal(env, iterations)
  }

  function ExecBlock(stmts: seq<Stmt>, env: Env, iterations: nat, cap: int): (c: Completion)
    ensures c.Normal? ==> iterations <= c.iterations && (c.iterations <= cap || c.iterations == iterations)
    decreases Remaining(iterations, cap), stmts, 0
  {
    if stmts == [] then Normal(env, iterations)
    else
      var c := Exec(stmts[0], env, iterations, cap);
      if c.Normal? then ExecBlock(stmts[1..], c.env, c.iterations, cap) else c
  }

  function Store(name: string, r: I32Result, env: Env, iterations: nat): Completion {
    if r.Trap? then Raised(r.kind) else Normal(env[name := r.v], iterations)
  }

  /** A flow that runs off its end returns zero. */
  function Finish(c: Completion): (f: Completion)
    ensures !f.Normal?
  {
    if c.Normal? then Returned(0) else c
  }

  /** Parameters are bound by position; a parameter without an argument starts at zero. */
  function Bind(params: seq<Param>, args: seq<int>): Env {
    if params == [] || args == [] then map[]
    else Bind(params[1..], args[1..])[params[0].name := ToInt32(args[0])]
  }

  function RunFlow(flow: Flow, args: seq<int>, cap: int): (f: Completion)
    ensures !f.Normal?
  {
    Finish(Exec(flow.body, Bind(flow.params, args), 0, cap))
  }
}
