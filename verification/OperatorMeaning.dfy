/** What the operators compute, in inequalities: once for the arithmetic, once for expressions, and once
    for the compiled run. */
module OperatorMeaning {
  import opened Options
  import opened I32Arith
  import opened FlowLanguage
  import opened BytecodeCompiler
  import opened BytecodeVm
  import opened CompilerCorrectness
  import opened CompiledFlows
  import opened CompiledCalls

  /** `x` itself when it is a signed 32-bit integer, and the overflow trap otherwise. */
  ghost predicate Strict(x: int, r: I32Result) {
    if -0x8000_0000 <= x <= 0x7fff_ffff then r == Value(x) else r == Trap(IntegerOverflow)
  }

  /** The remainder `m` of `a` by `b` is smaller than `b` and on the side of `a`. */
  ghost predicate IsRemainder(a: int, b: int, m: int) {
    && (if b > 0 then -b < m < b else b < m < -b)
    && (if a >= 0 then m >= 0 else m <= 0)
  }

  /** What a binary operator of the language answers on two values. */
  ghost predicate BinaryMeans(op: Operator, a: Int32, b: Int32, r: I32Result) {
    match op
    case Plus => Strict(a + b, r)
    case Minus => Strict(a - b, r)
    case Star => Strict(a * b, r)
    case Slash =>
      if b == 0 then r == Trap(DivisionByZero)
      else if a == -0x8000_0000 && b == -1 then r == Trap(IntegerOverflow)
      else r.Value? && IsRemainder(a, b, a - r.v * b)
    case Percent =>
      if b == 0 then r == Trap(DivisionByZero)
      else r.Value? && IsRemainder(a, b, r.v) && exists q: int :: a == q * b + r.v
    case Less => r == Value(if a < b then 1 else 0)
    case LessEq => r == Value(if a <= b then 1 else 0)
    case Greater => r == Value(if a > b then 1 else 0)
    case GreaterEq => r == Value(if a >= b then 1 else 0)
    case EqualEqual => r == Value(if a == b then 1 else 0)
    case BangEqual => r == Value(if a == b then 0 else 1)
    case AmpAmp => IsSmaller(a, b, r)
    case AndWord => IsSmaller(a, b, r)
    case BarBar => IsLarger(a, b, r)
    case OrWord => IsLarger(a, b, r)
    case Bang => false
    case OtherOp => false
  }

  ghost predicate IsSmaller(a: Int32, b: Int32, r: I32Result) {
    r.Value? && r.v <= a && r.v <= b && (r.v == a || r.v == b)
  }

  ghost predicate IsLarger(a: Int32, b: Int32, r: I32Result) {
    r.Value? && r.v >= a && r.v >= b && (r.v == a || r.v == b)
  }

  lemma QuotientMeans(a: Int32, b: Int32)
    requires b != 0
    ensures IsRemainder(a, b, RemainderJs(a, b)) && a == TruncQuotient(a, b) * b + RemainderJs(a, b)
    ensures I32_MIN <= TruncQuotient(a, b) <= I32_MAX <==> !(a == -0x8000_0000 && b == -1)
  {
    QuotientTimesDivisor(a, b);
    QuotientBound(a, b);
  }

  lemma AppliedMeans(op: Operator, a: Int32, b: Int32)
    requires op != Bang && op != OtherOp
    ensures BinaryMeans(op, a, b, ApplyBinary(op, a, b))
  {
    if (op == Slash || op == Percent) && b != 0 { QuotientMeans(a, b); }
  }

  /** Both operands are evaluated, the left one first; a trap in one is the answer; otherwise the operator
      answers as it means. */
  lemma EvalMeans(op: Operator, l: Expr, r: Expr, env: Env)
    requires op != Bang && op != OtherOp
    ensures var a, b, whole := Eval(l, env), Eval(r, env), Eval(Binary(op, l, r), env);
      if a.Trap? then whole == a
      else if b.Trap? then whole == b
      else BinaryMeans(op, a.v, b.v, whole)
  {
    var a, b := Eval(l, env), Eval(r, env);
    if a.Value? && b.Value? { AppliedMeans(op, a.v, b.v); }
  }

  /** Negation traps on the least integer only; the exclamation mark asks whether the operand is zero. */
  lemma UnaryMeans(op: Operator, x: Expr, env: Env)
    requires op == Minus || op == Bang
    ensures var a, whole := Eval(x, env), Eval(Unary(op, x), env);
      if a.Trap? then whole == a
      else if op == Minus then Strict(0 - a.v, whole)
      else whole == Value(if a.v == 0 then 1 else 0)
  {}

  /** `(x, y) => return x op y`. */
  function OperatorFlow(op: Operator): Flow {
    Flow([Param("x", "Int"), Param("y", "Int")], Block([Return(Binary(op, Identifier("x"), Identifier("y")))]), false)
  }

  /** What the machine answers for a result. */
  ghost predicate Delivers(got: Outcome, r: I32Result) {
    match r
    case Value(v) => got == Result(Word(v))
    case Trap(kind) => got == Trapped(kind)
  }

  const BOTH: Slots := Slots(map["x" := 0, "y" := 1], 2)

  lemma OperatorFlowCompiles(op: Operator)
    requires op != Bang && op != OtherOp
    ensures Runnable(OperatorFlow(op)) && DistinctParams(OperatorFlow(op).params)
  {
    var flow := OperatorFlow(op);
    var e := Binary(op, Identifier("x"), Identifier("y"));
    var params := flow.params;
    assert params[1..] == [Param("y", "Int")] && params[1..][1..] == [];
    assert DeclareParams(params[1..], Slots(map["x" := 0], 1)) == Some(BOTH);
    assert DeclareParams(params, EMPTY_SLOTS) == Some(BOTH);
    var code := [LOAD_LOCAL, 0] + [LOAD_LOCAL, 1] + [BinopToOp(op).value];
    assert CompileExpr(Identifier("x"), BOTH) == Some([LOAD_LOCAL, 0]) && CompileExpr(Identifier("y"), BOTH) == Some([LOAD_LOCAL, 1]);
    assert CompileExpr(e, BOTH) == Some(code);
    ReturnCompiles(e, BOTH, code);
    SingletonBlock(Return(e), BOTH, 0);
    assert CompileStmt(flow.body, BOTH, 0) == Some(Fragment(code + [RETURN], BOTH));
    NeedOfOne(Return(e));
    assert Need(e) == 2;
  }

  lemma OperatorFlowMeans(op: Operator, a: Int32, b: Int32, cap: int)
    requires op != Bang && op != OtherOp
    ensures exists r :: BinaryMeans(op, a, b, r) && Delivers(Answer(RunFlow(OperatorFlow(op), [a, b], cap)), r)
  {
    var flow := OperatorFlow(op);
    var x, y := Identifier("x"), Identifier("y");
    assert DistinctParams(flow.params) && flow.params[0].name == "x" && flow.params[1].name == "y";
    BindLookup(flow.params, [a, b], "x");
    BindLookup(flow.params, [a, b], "y");
    var env := Bind(flow.params, [a, b]);
    assert Lookup(env, "y") == b && Lookup(env, "x") == a;
    EvalMeans(op, x, y, env);
    var r := Eval(Binary(op, x, y), env);
    assert ExecBlock([Return(Binary(op, x, y))], env, 0, cap) == if r.Trap? then Raised(r.kind) else Returned(r.v);
    assert BinaryMeans(op, a, b, r) && Delivers(Answer(RunFlow(flow, [a, b], cap)), r);
  }

  /** The compiled flow that applies an operator to its two arguments answers what the operator means. */
  lemma CompiledOperator(op: Operator, a: Int32, b: Int32, cap: int)
    requires op != Bang && op != OtherOp
    ensures CompileFlow(OperatorFlow(op)).Some?
    ensures var p := CompileFlow(OperatorFlow(op)).value;
      exists r :: BinaryMeans(op, a, b, r) && Delivers(Run(p.code, InitialState(p, [a, b]), cap), r)
  {
    OperatorFlowCompiles(op);
    CompiledCallIsCorrect(OperatorFlow(op), [a, b], cap);
    OperatorFlowMeans(op, a, b, cap);
  }

  /** The meaning leaves no choice. */
  lemma MeaningIsUnique(op: Operator, a: Int32, b: Int32, r: I32Result, r': I32Result)
    requires BinaryMeans(op, a, b, r) && BinaryMeans(op, a, b, r')
    ensures r == r'
  {
    if op == Slash && b != 0 && r.Value? {
      SameQuotient(b, r.v, r'.v, a - r.v * b, a - r'.v * b);
    }
    if op == Percent && b != 0 {
      var q: int :| a == q * b + r.v;
      var q': int :| a == q' * b + r'.v;
      SameQuotient(b, q, q', r.v, r'.v);
    }
  }

  lemma SameQuotient(b: int, q: int, q': int, m: int, m': int)
    requires b != 0 && q * b + m == q' * b + m'
    requires (if b > 0 then -b < m < b && -b < m' < b else b < m < -b && b < m' < -b) && ((m >= 0 && m' >= 0) || (m <= 0 && m' <= 0))
    ensures q == q' && m == m'
  {
    assert (q - q') * b == m' - m;
    if q > q' { Product(q - q', b); } else if q < q' { Product(q' - q, b); }
  }

  lemma Product(k: int, b: int)
    requires k >= 1
    ensures b > 0 ==> k * b >= b
    ensures b < 0 ==> k * b <= b
  {}
}
