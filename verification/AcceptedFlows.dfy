/** Which flows the compiler accepts (`bytecode-vm.ts`, class BytecodeCompiler), said without code, slots
    or jumps. */
module AcceptedFlows {
  import opened Options
  import opened FlowLanguage
  import opened BytecodeCompiler

  /** Numbers that fit, truth values, names that are known, and operators of the table on such. */
  ghost predicate ExprTaken(e: Expr, names: set<string>) {
    match e
    case Number(n) => -0x8000_0000 <= n <= 0x7fff_ffff
    case BoolLiteral(_) => true
    case Identifier(x) => x == "true" || x == "false" || x in names
    case Binary(op, l, r) => op != Bang && op != OtherOp && ExprTaken(l, names) && ExprTaken(r, names)
    case Unary(op, x) => (op == Minus || op == Bang) && ExprTaken(x, names)
    case FloatLiteral => false
    case AbsentExpr => false
    case OtherExpr => false
  }

  ghost predicate ExprTakenOrAbsent(e: Expr, names: set<string>) {
    e == AbsentExpr || ExprTaken(e, names)
  }

  /** The names known after a statement: every name it binds anywhere, taken branch or not. */
  ghost function NamesAfter(stmt: Stmt, names: set<string>): set<string>
    decreases stmt, 0
  {
    match stmt
    case Let(x, _) => names + {x}
    case Assign(x, _) => names + {x}
    case If(_, t, f) => NamesAfter(f, NamesAfter(t, names))
    case While(_, body) => NamesAfter(body, names)
    case Block(stmts) => NamesAfterAll(stmts, names)
    case Return(_) => names
    case AbsentStmt => names
    case OtherStmt => names
  }

  ghost function NamesAfterAll(stmts: seq<Stmt>, names: set<string>): set<string>
    decreases stmts, 0
  {
    if stmts == [] then names else NamesAfterAll(stmts[1..], NamesAfter(stmts[0], names))
  }

  ghost predicate StmtTaken(stmt: Stmt, names: set<string>)
    decreases stmt, 0
  {
    match stmt
    case Let(_, e) => ExprTakenOrAbsent(e, names)
    case Assign(_, e) => ExprTakenOrAbsent(e, names)
    case Return(e) => ExprTakenOrAbsent(e, names)
    case If(c, t, f) =>
      && ExprTaken(c, names)
      && (t == AbsentStmt || StmtTaken(t, names))
      && (f == AbsentStmt || StmtTaken(f, NamesAfter(t, names)))
    case While(c, body) => ExprTaken(c, names) && (body == AbsentStmt || StmtTaken(body, names))
    case Block(stmts) => AllTaken(stmts, names)
    case AbsentStmt => false
    case OtherStmt => false
  }

  ghost predicate AllTaken(stmts: seq<Stmt>, names: set<string>)
    decreases stmts, 0
  {
    stmts == [] || (StmtTaken(stmts[0], names) && AllTaken(stmts[1..], NamesAfter(stmts[0], names)))
  }

  lemma {:induction false} ExprAccepted(e: Expr, s: Slots)
    ensures CompileExpr(e, s).Some? <==> ExprTaken(e, s.of.Keys)
  {
    match e
    case Binary(op, l, r) =>
      ExprAccepted(l, s);
      ExprAccepted(r, s);
    case Unary(op, x) => ExprAccepted(x, s);
    case _ =>
  }

  /** A statement is accepted if and only if all of it is, and then its names are known afterwards. */
  lemma {:induction false} StmtAccepted(stmt: Stmt, s: Slots, base: nat)
    ensures CompileStmt(stmt, s, base).Some? <==> StmtTaken(stmt, s.of.Keys)
    ensures CompileStmt(stmt, s, base).Some? ==> CompileStmt(stmt, s, base).value.slots.of.Keys == NamesAfter(stmt, s.of.Keys)
    decreases stmt, 1
  {
    match stmt
    case Let(x, e) => StoreAccepted(x, e, s);
    case Assign(x, e) => StoreAccepted(x, e, s);
    case Return(e) => ExprAccepted(e, s);
    case If(_, _, _) => IfAccepted(stmt, s, base);
    case While(_, _) => WhileAccepted(stmt, s, base);
    case Block(stmts) => AllAccepted(stmts, s, base);
    case _ =>
  }

  lemma StoreAccepted(x: string, e: Expr, s: Slots)
    ensures CompileStore(x, e, s).Some? <==> ExprTakenOrAbsent(e, s.of.Keys)
    ensures CompileStore(x, e, s).Some? ==> CompileStore(x, e, s).value.slots.of.Keys == s.of.Keys + {x}
  {
    ExprAccepted(e, s);
  }

  lemma {:induction false} WhileAccepted(stmt: Stmt, s: Slots, base: nat)
    requires stmt.While?
    ensures CompileStmt(stmt, s, base).Some? <==> StmtTaken(stmt, s.of.Keys)
    ensures CompileStmt(stmt, s, base).Some? ==> CompileStmt(stmt, s, base).value.slots.of.Keys == NamesAfter(stmt, s.of.Keys)
    decreases stmt, 0
  {
    var c := CompileExpr(stmt.guard, s);
    ExprAccepted(stmt.guard, s);
    if c.Some? { NestedAccepted(stmt.body, s, base + |c.value| + 2); }
  }

  lemma {:induction false} IfAccepted(stmt: Stmt, s: Slots, base: nat)
    requires stmt.If?
    ensures CompileStmt(stmt, s, base).Some? <==> StmtTaken(stmt, s.of.Keys)
    ensures CompileStmt(stmt, s, base).Some? ==> CompileStmt(stmt, s, base).value.slots.of.Keys == NamesAfter(stmt, s.of.Keys)
    decreases stmt, 0
  {
    var c := CompileExpr(stmt.cond, s);
    ExprAccepted(stmt.cond, s);
    if c.Some? {
      var thenBase := base + |c.value| + 2;
      var t := CompileNested(stmt.thenBranch, s, thenBase);
      NestedAccepted(stmt.thenBranch, s, thenBase);
      if t.Some? { NestedAccepted(stmt.elseBranch, t.value.slots, thenBase + |t.value.code| + 2); }
    }
  }

  lemma {:induction false} NestedAccepted(stmt: Stmt, s: Slots, base: nat)
    ensures CompileNested(stmt, s, base).Some? <==> stmt == AbsentStmt || StmtTaken(stmt, s.of.Keys)
    ensures CompileNested(stmt, s, base).Some? ==> CompileNested(stmt, s, base).value.slots.of.Keys == NamesAfter(stmt, s.of.Keys)
    decreases stmt, 2
  {
    if stmt != AbsentStmt { StmtAccepted(stmt, s, base); }
  }

  lemma {:induction false} AllAccepted(stmts: seq<Stmt>, s: Slots, base: nat)
    ensures CompileBlock(stmts, s, base).Some? <==> AllTaken(stmts, s.of.Keys)
    ensures CompileBlock(stmts, s, base).Some? ==> CompileBlock(stmts, s, base).value.slots.of.Keys == NamesAfterAll(stmts, s.of.Keys)
    decreases stmts, 0
  {
    if stmts != [] {
      StmtAccepted(stmts[0], s, base);
      var a := CompileStmt(stmts[0], s, base);
      if a.Some? { AllAccepted(stmts[1..], a.value.slots, base + |a.value.code|); }
    }
  }

  ghost function ParamSet(params: seq<Param>): set<string> {
    set p | p in params :: p.name
  }

  lemma {:induction false} ParamsAccepted(params: seq<Param>, s: Slots)
    ensures DeclareParams(params, s).Some? <==>
      forall p :: p in params ==> p.declType in {"Int", "Int8", "Int16", "Int32", "Bool", "Byte"}
    ensures DeclareParams(params, s).Some? ==> DeclareParams(params, s).value.of.Keys == s.of.Keys + ParamSet(params)
  {
    if params != [] {
      ParamsAccepted(params[1..], SlotFor(params[0].name, s).1);
      assert params == [params[0]] + params[1..];
      assert ParamSet(params) == {params[0].name} + ParamSet(params[1..]);
    }
  }

  /** The compiler accepts exactly the flows without 64-bit scalars whose parameters have one of six types
      and whose body is a block of taken statements. */
  lemma AcceptedExactly(flow: Flow)
    ensures CompileFlow(flow).Some? <==>
      && !flow.declares64
      && (forall p :: p in flow.params ==> p.declType in {"Int", "Int8", "Int16", "Int32", "Bool", "Byte"})
      && flow.body.Block? && AllTaken(flow.body.stmts, ParamSet(flow.params))
  {
    ParamsAccepted(flow.params, EMPTY_SLOTS);
    var s := DeclareParams(flow.params, EMPTY_SLOTS);
    if s.Some? && flow.body.Block? {
      assert s.value.of.Keys == ParamSet(flow.params);
      StmtAccepted(flow.body, s.value, 0);
    }
  }
}
