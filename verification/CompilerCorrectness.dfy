/** Running the code of an expression or a statement is what it means. */
module CompilerCorrectness {
  import opened Folding
  import opened Options
  import opened I32Arith
  import opened FlowLanguage
  import opened BytecodeCompiler
  import opened BytecodeVm

  /** `frag` is placed at address `pc` of the code. */
  ghost predicate CodeAt(code: seq<Int32>, pc: int, frag: seq<int>) {
    0 <= pc && pc + |frag| <= |code| && forall i :: 0 <= i < |frag| ==> code[pc + i] == frag[i]
  }

  lemma CodeAtSplit(code: seq<Int32>, pc: int, a: seq<int>, b: seq<int>)
    requires CodeAt(code, pc, a + b)
    ensures CodeAt(code, pc, a) && CodeAt(code, pc + |a|, b)
  {
    forall i | 0 <= i < |a| ensures code[pc + i] == a[i] { assert (a + b)[i] == a[i]; }
    forall i | 0 <= i < |b| ensures code[pc + |a| + i] == b[i] { assert (a + b)[|a| + i] == b[i]; }
  }

  /** The most stack slots an expression has in use at once. */
  function Need(e: Expr): (n: nat)
    ensures n >= 1
  {
    match e
    case Binary(_, l, r) => var n := 1 + Need(r); if Need(l) > n then Need(l) else n
    case Unary(_, x) => Need(x)
    case _ => 1
  }

  function NeedStmt(s: Stmt): nat
    decreases s, 1
  {
    match s
    case Let(_, e) => Need(e)
    case Assign(_, e) => Need(e)
    case Return(e) => Need(e)
    case If(c, t, f) => MaxNat(Need(c), MaxNat(NeedStmt(t), NeedStmt(f)))
    case While(c, b) => MaxNat(Need(c), NeedStmt(b))
    case Block(stmts) => NeedBlock(stmts)
    case _ => 0
  }

  function NeedBlock(stmts: seq<Stmt>): nat
    decreases stmts, 0
  {
    if stmts == [] then 0 else MaxNat(NeedStmt(stmts[0]), NeedBlock(stmts[1..]))
  }

  function MaxNat(a: nat, b: nat): nat {
    if a > b then a else b
  }

  /** Distinct names have distinct slots, all handed out already. */
  ghost predicate Proper(s: Slots) {
    && (forall x :: x in s.of ==> s.of[x] < s.next)
    && (forall x, y :: x in s.of && y in s.of && s.of[x] == s.of[y] ==> x == y)
  }

  ghost predicate Grows(s: Slots, s': Slots) {
    s.next <= s'.next && forall x :: x in s.of ==> x in s'.of && s'.of[x] == s.of[x]
  }

  /** Every variable that has a slot holds its value there. */
  ghost predicate Agrees(env: Env, locals: seq<Int32>, final: Slots) {
    forall x :: x in final.of ==> final.of[x] < |locals| && locals[final.of[x]] == Lookup(env, x)
  }

  // ----- Slot tables only grow -----

  lemma {:induction false} StmtGrows(stmt: Stmt, s: Slots, base: nat)
    requires Proper(s) && CompileStmt(stmt, s, base).Some?
    ensures var f := CompileStmt(stmt, s, base).value; Grows(s, f.slots) && Proper(f.slots)
    decreases stmt, 1
  {
    match stmt
    case Let(_, _) =>
    case Assign(_, _) =>
    case Return(_) =>
    case If(c, t, f) =>
      var tb := base + |CompileExpr(c, s).value| + 2;
      NestedGrows(t, s, tb);
      if !f.AbsentStmt? {
        var tf := CompileNested(t, s, tb).value;
        NestedGrows(f, tf.slots, tb + |tf.code| + 2);
      }
    case While(c, b) =>
      NestedGrows(b, s, base + |CompileExpr(c, s).value| + 2);
    case Block(stmts) =>
      BlockGrows(stmts, s, base);
  }

  lemma {:induction false} NestedGrows(stmt: Stmt, s: Slots, base: nat)
    requires Proper(s) && CompileNested(stmt, s, base).Some?
    ensures var f := CompileNested(stmt, s, base).value; Grows(s, f.slots) && Proper(f.slots)
    decreases stmt, 2
  {
    if !stmt.AbsentStmt? { StmtGrows(stmt, s, base); }
  }

  lemma {:induction false} BlockGrows(stmts: seq<Stmt>, s: Slots, base: nat)
    requires Proper(s) && CompileBlock(stmts, s, base).Some?
    ensures var f := CompileBlock(stmts, s, base).value; Grows(s, f.slots) && Proper(f.slots)
    decreases stmts, 0
  {
    if stmts != [] {
      StmtGrows(stmts[0], s, base);
      var f := CompileStmt(stmts[0], s, base).value;
      BlockGrows(stmts[1..], f.slots, base + |f.code|);
    }
  }

  // ----- Expressions -----

  lemma OpcodeMeaning(op: Operator, a: Int32, b: Int32)
    requires BinopToOp(op).Some?
    ensures IsBinary(BinopToOp(op).value)
    ensures Binop(BinopToOp(op).value, a, b) == FromI32(ApplyBinary(op, a, b))
  {
    if BinopToOp(op).value < LT { ArithmeticMeaning(op, a, b); } else { ComparisonMeaning(op, a, b); }
  }

  lemma ArithmeticMeaning(op: Operator, a: Int32, b: Int32)
    requires BinopToOp(op).Some? && BinopToOp(op).value < LT
    ensures IsBinary(BinopToOp(op).value)
    ensures Binop(BinopToOp(op).value, a, b) == FromI32(ApplyBinary(op, a, b))
  {
    if op.Percent? && b != 0 { RemainderFits(a, b); }
  }

  lemma RemainderFits(a: Int32, b: Int32)
    requires b != 0
    ensures I32_MIN <= RemainderJs(a, b) <= I32_MAX
  {}

  lemma ComparisonMeaning(op: Operator, a: Int32, b: Int32)
    requires BinopToOp(op).Some? && BinopToOp(op).value >= LT
    ensures IsBinary(BinopToOp(op).value)
    ensures Binop(BinopToOp(op).value, a, b) == FromI32(ApplyBinary(op, a, b))
  {}

  /** The machine has reached `st'`, just past the code at `st`, with `v` pushed and nothing else changed. */
  ghost predicate Pushed(st: State, st': State, width: nat, v: Int32)
    requires 0 <= st.sp < |st.stack|
  {
    && st'.pc == st.pc + width && st'.sp == st.sp + 1
    && st'.locals == st.locals && st'.backEdges == st.backEdges
    && |st'.stack| == |st.stack|
    && (forall i :: 0 <= i < st.sp ==> st'.stack[i] == st.stack[i])
    && st'.stack[st.sp] == v
  }

  /** Running from `st` gives what evaluating to `r` requires: the trap, or `st'` with the value pushed. */
  ghost predicate Evaluates(code: seq<Int32>, cap: int, st: State, st': State, width: nat, r: I32Result)
    requires 0 <= st.sp < |st.stack|
  {
    match r
    case Trap(kind) => Run(code, st, cap) == Trapped(kind)
    case Value(v) => Run(code, st, cap) == Run(code, st', cap) && Pushed(st, st', width, v)
  }

  ghost predicate Ready(code: seq<Int32>, frag: Option<seq<int>>, need: nat, s: Slots, final: Slots, env: Env, st: State) {
    && frag.Some? && CodeAt(code, st.pc, frag.value)
    && Grows(s, final) && Agrees(env, st.locals, final)
    && need >= 1 && 0 <= st.sp && st.sp + need <= |st.stack|
  }

  /** Code of an accepted expression pushes its value, or stops with its trap. */
  lemma {:induction false} ExprRuns(code: seq<Int32>, cap: int, e: Expr, s: Slots, final: Slots, env: Env, st: State)
    returns (st': State)
    requires Ready(code, CompileExpr(e, s), Need(e), s, final, env, st)
    ensures Evaluates(code, cap, st, st', |CompileExpr(e, s).value|, Eval(e, env))
    decreases e, 1
  {
    match e {
      case Binary(_, _, _) => st' := BinaryExprRuns(code, cap, e, s, final, env, st);
      case Unary(_, _) => st' := UnaryExprRuns(code, cap, e, s, final, env, st);
      case _ => st' := LeafRuns(code, cap, e, s, final, env, st);
    }
  }

  lemma {:induction false} BinaryExprRuns(code: seq<Int32>, cap: int, e: Expr, s: Slots, final: Slots, env: Env, st: State)
    returns (st': State)
    requires e.Binary? && Ready(code, CompileExpr(e, s), Need(e), s, final, env, st)
    ensures Evaluates(code, cap, st, st', |CompileExpr(e, s).value|, Eval(e, env))
    decreases e, 0
  {
    var a, b := CompileExpr(e.left, s).value, CompileExpr(e.right, s).value;
    CodeAtSplit(code, st.pc, a + b, [BinopToOp(e.op).value]);
    CodeAtSplit(code, st.pc, a, b);
    st' := ExprRuns(code, cap, e.left, s, final, env, st);
    if Eval(e.left, env).Trap? { return; }
    var st2 := ExprRuns(code, cap, e.right, s, final, env, st');
    if Eval(e.right, env).Trap? { return; }
    st' := BinaryRuns(code, cap, e.op, Eval(e.left, env).v, Eval(e.right, env).v, st2);
  }

  lemma {:induction false} UnaryExprRuns(code: seq<Int32>, cap: int, e: Expr, s: Slots, final: Slots, env: Env, st: State)
    returns (st': State)
    requires e.Unary? && Ready(code, CompileExpr(e, s), Need(e), s, final, env, st)
    ensures Evaluates(code, cap, st, st', |CompileExpr(e, s).value|, Eval(e, env))
    decreases e, 0
  {
    var a := CompileExpr(e.operand, s).value;
    CodeAtSplit(code, st.pc, a, [if e.uop.Minus? then NEG else NOT]);
    st' := ExprRuns(code, cap, e.operand, s, final, env, st);
    if Eval(e.operand, env).Trap? { return; }
    st' := UnaryRuns(code, cap, e.uop, Eval(e.operand, env).v, st');
  }

  lemma LeafRuns(code: seq<Int32>, cap: int, e: Expr, s: Slots, final: Slots, env: Env, st: State)
    returns (st': State)
    requires !e.Binary? && !e.Unary? && Ready(code, CompileExpr(e, s), Need(e), s, final, env, st)
    ensures Evaluates(code, cap, st, st', |CompileExpr(e, s).value|, Eval(e, env))
  {
    var frag := CompileExpr(e, s).value;
    assert frag == [frag[0], frag[1]];
    if frag[0] == LOAD_LOCAL {
      assert Lookup(env, e.name) == st.locals[frag[1]];
      st' := LoadRuns(code, cap, LOAD_LOCAL, frag[1], Lookup(env, e.name), st);
    } else {
      st' := LoadRuns(code, cap, LOAD_CONST, frag[1], frag[1], st);
    }
  }

  /** The two loads push a constant or the content of a slot. */
  lemma LoadRuns(code: seq<Int32>, cap: int, op: int, arg: int, v: Int32, st: State) returns (st': State)
    requires CodeAt(code, st.pc, [op, arg])
    requires 0 <= st.sp < |st.stack|
    requires (op == LOAD_CONST && v == arg)
          || (op == LOAD_LOCAL && 0 <= arg < |st.locals| && v == st.locals[arg])
    ensures Run(code, st, cap) == Run(code, st', cap) && Pushed(st, st', 2, v)
  {
    assert code[st.pc] == [op, arg][0] && code[st.pc + 1] == [op, arg][1];
    st' := Step(code, st, cap).state;
  }

  lemma BinaryRuns(code: seq<Int32>, cap: int, op: Operator, a: Int32, b: Int32, st: State) returns (st': State)
    requires BinopToOp(op).Some? && CodeAt(code, st.pc, [BinopToOp(op).value])
    requires 2 <= st.sp <= |st.stack| && st.stack[st.sp - 2] == a && st.stack[st.sp - 1] == b
    ensures match ApplyBinary(op, a, b)
      case Trap(kind) => Run(code, st, cap) == Trapped(kind)
      case Value(v) =>
        && Run(code, st, cap) == Run(code, st', cap)
        && st' == st.(pc := st.pc + 1, sp := st.sp - 1, stack := st.stack[st.sp - 2 := v])
  {
    OpcodeMeaning(op, a, b);
    assert code[st.pc] == [BinopToOp(op).value][0];
    var r := Step(code, st, cap);
    st' := if r.Continue? then r.state else st;
  }

  lemma UnaryRuns(code: seq<Int32>, cap: int, op: Operator, a: Int32, st: State) returns (st': State)
    requires CodeAt(code, st.pc, [if op.Minus? then NEG else NOT])
    requires 1 <= st.sp <= |st.stack| && st.stack[st.sp - 1] == a
    ensures match ApplyUnary(op, a)
      case Trap(kind) => Run(code, st, cap) == Trapped(kind)
      case Value(v) =>
        && Run(code, st, cap) == Run(code, st', cap)
        && st' == st.(pc := st.pc + 1, stack := st.stack[st.sp - 1 := v])
  {
    assert code[st.pc] == [if op.Minus? then NEG else NOT][0];
    var r := Step(code, st, cap);
    st' := if r.Continue? then r.state else st;
  }

  lemma OrZeroRuns(code: seq<Int32>, cap: int, e: Expr, s: Slots, final: Slots, env: Env, st: State)
    returns (st': State)
    requires Ready(code, CompileOrZero(e, s), Need(e), s, final, env, st)
    ensures Evaluates(code, cap, st, st', |CompileOrZero(e, s).value|, EvalOrZero(e, env))
  {
    if e.AbsentExpr? {
      st' := LoadRuns(code, cap, LOAD_CONST, 0, 0, st);
    } else {
      st' := ExprRuns(code, cap, e, s, final, env, st);
    }
  }

  // ----- Statements -----

  /** Running from `st` gives what completion `c` requires. After a normal completion the machine is at
      `end` with an empty stack, the same iteration count, and the slots in agreement. */
  ghost predicate CompletesAs(code: seq<Int32>, cap: int, st: State, st': State, end: int, final: Slots, c: Completion) {
    match c
    case Normal(env, n) =>
      && Run(code, st, cap) == Run(code, st', cap)
      && st'.pc == end && st'.sp == 0 && st'.backEdges == n
      && |st'.stack| == |st.stack| && |st'.locals| == |st.locals|
      && Agrees(env, st'.locals, final)
    case Returned(v) => Run(code, st, cap) == Result(Word(v))
    case Raised(kind) => Run(code, st, cap) == Trapped(kind)
    case LoopCapExceeded => Run(code, st, cap) == LoopCap
  }

  /** The same, folded. */
  ghost predicate Completes(code: seq<Int32>, cap: int, st: State, st': State, end: int, final: Slots, c: Completion) {
    forall key {:trigger Unlock(key)} :: Unlock(key) ==> CompletesAs(code, cap, st, st', end, final, c)
  }

  /** The machine stands before the fragment, at a statement boundary. */
  ghost predicate StandsBefore(code: seq<Int32>, frag: Fragment, need: nat, s: Slots, final: Slots, env: Env, st: State) {
    && CodeAt(code, st.pc, frag.code)
    && Proper(s) && Proper(final) && Grows(s, frag.slots) && Grows(frag.slots, final)
    && st.sp == 0 && 1 <= |st.stack| && need <= |st.stack|
    && Agrees(env, st.locals, final)
  }

  /** The same, folded, but for the empty stack. */
  ghost predicate Before(code: seq<Int32>, frag: Fragment, need: nat, s: Slots, final: Slots, env: Env, st: State) {
    st.sp == 0 && forall key {:trigger Unlock(key)} :: Unlock(key) ==> StandsBefore(code, frag, need, s, final, env, st)
  }

  lemma StoreRuns(code: seq<Int32>, cap: int, slot: nat, name: string, v: Int32, final: Slots, env: Env, st: State)
    returns (st': State)
    requires CodeAt(code, st.pc, [STORE_LOCAL, slot])
    requires Proper(final) && name in final.of && final.of[name] == slot
    requires st.sp == 1 <= |st.stack| && st.stack[0] == v && Agrees(env, st.locals, final)
    ensures Completes(code, cap, st, st', st.pc + 2, final, Normal(env[name := v], st.backEdges))
  {
    assert code[st.pc] == [STORE_LOCAL, slot][0] && code[st.pc + 1] == [STORE_LOCAL, slot][1];
    st' := Step(code, st, cap).state;
    assert st'.locals == st.locals[slot := v];
    forall x | x in final.of ensures final.of[x] < |st'.locals| && st'.locals[final.of[x]] == Lookup(env[name := v], x) {
      assert final.of[x] == slot ==> x == name;
    }
  }

  lemma JumpRuns(code: seq<Int32>, cap: int, target: nat, st: State) returns (st': State)
    requires CodeAt(code, st.pc, [JUMP, target])
    ensures target > st.pc ==> st' == st.(pc := target) && Run(code, st, cap) == Run(code, st', cap)
    ensures target <= st.pc && st.backEdges + 1 <= cap ==>
      st' == st.(pc := target, backEdges := st.backEdges + 1) && Run(code, st, cap) == Run(code, st', cap)
    ensures target <= st.pc && st.backEdges + 1 > cap ==> Run(code, st, cap) == LoopCap
  {
    assert code[st.pc] == [JUMP, target][0] && code[st.pc + 1] == [JUMP, target][1];
    var r := Step(code, st, cap);
    st' := if r.Continue? then r.state else st;
  }

  /** A condition's value is popped; a zero takes the forward jump, any other value falls through. */
  lemma BranchRuns(code: seq<Int32>, cap: int, target: nat, v: Int32, st: State) returns (st': State)
    requires CodeAt(code, st.pc, [JUMP_IF_FALSE, target]) && target >= st.pc + 2
    requires st.sp == 1 <= |st.stack| && st.stack[0] == v
    ensures st' == st.(pc := if v == 0 then target else st.pc + 2, sp := 0)
    ensures Run(code, st, cap) == Run(code, st', cap)
  {
    assert code[st.pc] == [JUMP_IF_FALSE, target][0] && code[st.pc + 1] == [JUMP_IF_FALSE, target][1];
    st' := Step(code, st, cap).state;
  }

  /** A state at a statement boundary, reached without touching the variables or the iteration count. */
  ghost predicate MovedTo(st: State, st': State, pc: int) {
    && st'.pc == pc && st'.sp == 0 && st'.locals == st.locals && st'.backEdges == st.backEdges
    && |st'.stack| == |st.stack|
  }

  lemma CondRuns(code: seq<Int32>, cap: int, e: Expr, target: nat, s: Slots, final: Slots, env: Env, st: State)
    returns (st': State)
    requires st.sp == 0 && Ready(code, CompileExpr(e, s), Need(e), s, final, env, st)
    requires CodeAt(code, st.pc + |CompileExpr(e, s).value|, [JUMP_IF_FALSE, target])
    requires target >= st.pc + |CompileExpr(e, s).value| + 2
    ensures match Eval(e, env)
      case Trap(kind) => Run(code, st, cap) == Trapped(kind)
      case Value(v) =>
        && Run(code, st, cap) == Run(code, st', cap)
        && MovedTo(st, st', if v == 0 then target else st.pc + |CompileExpr(e, s).value| + 2)
  {
    st' := ExprRuns(code, cap, e, s, final, env, st);
    if Eval(e, env).Value? {
      st' := BranchRuns(code, cap, target, Eval(e, env).v, st');
    }
  }

  lemma GrowsTransitive(a: Slots, b: Slots, c: Slots)
    requires Grows(a, b) && Grows(b, c)
    ensures Grows(a, c)
  {}

  /** `frag` is the code of the statement, `need` at least its stack need, `done` what it evaluates to. */
  lemma {:induction false} StmtRuns(code: seq<Int32>, cap: int, stmt: Stmt, frag: Fragment, need: nat, s: Slots, final: Slots, env: Env, st: State, done: Completion)
    returns (st': State)
    requires st.pc >= 0 && CompileStmt(stmt, s, st.pc) == Some(frag) && NeedStmt(stmt) <= need
    requires Before(code, frag, need, s, final, env, st)
    requires done == Exec(stmt, env, st.backEdges, cap)
    ensures Completes(code, cap, st, st', st.pc + |frag.code|, final, done)
    decreases Remaining(st.backEdges, cap), stmt, 2
  {
    match stmt {
      case Let(name, e) => st' := StoreStmtRuns(code, cap, name, e, frag, need, s, final, env, st, done);
      case Assign(name, e) => st' := StoreStmtRuns(code, cap, name, e, frag, need, s, final, env, st, done);
      case Return(_) => st' := ReturnStmtRuns(code, cap, stmt, frag, need, s, final, env, st, done);
      case If(_, _, _) => st' := IfRuns(code, cap, stmt, frag, need, s, final, env, st, done);
      case While(_, _) => st' := WhileRuns(code, cap, stmt, frag, need, s, final, env, st, done);
      case Block(stmts) => st' := BlockRuns(code, cap, stmts, frag, need, s, final, env, st, done);
    }
  }

  lemma {:induction false} NestedRuns(code: seq<Int32>, cap: int, stmt: Stmt, frag: Fragment, need: nat, s: Slots, final: Slots, env: Env, st: State, done: Completion)
    returns (st': State)
    requires st.pc >= 0 && CompileNested(stmt, s, st.pc) == Some(frag) && NeedStmt(stmt) <= need
    requires Before(code, frag, need, s, final, env, st)
    requires done == Exec(stmt, env, st.backEdges, cap)
    ensures Completes(code, cap, st, st', st.pc + |frag.code|, final, done)
    decreases Remaining(st.backEdges, cap), stmt, 3
  {
    if stmt.AbsentStmt? { st' := st; } else { st' := StmtRuns(code, cap, stmt, frag, need, s, final, env, st, done); }
  }

  lemma ReturnStmtRuns(code: seq<Int32>, cap: int, stmt: Stmt, frag: Fragment, need: nat, s: Slots, final: Slots, env: Env, st: State, done: Completion)
    returns (st': State)
    requires stmt.Return? && st.pc >= 0 && CompileStmt(stmt, s, st.pc) == Some(frag) && NeedStmt(stmt) <= need
    requires Before(code, frag, need, s, final, env, st)
    requires done == Exec(stmt, env, st.backEdges, cap)
    ensures Completes(code, cap, st, st', st.pc + |frag.code|, final, done)
  {
    assert Unlock(true);
    var a := CompileOrZero(stmt.result, s).value;
    CodeAtSplit(code, st.pc, a, [RETURN]);
    st' := OrZeroRuns(code, cap, stmt.result, s, final, env, st);
    if EvalOrZero(stmt.result, env).Trap? { return; }
    assert code[st'.pc] == [RETURN][0];
  }

  lemma StoreStmtRuns(code: seq<Int32>, cap: int, name: string, e: Expr, frag: Fragment, need: nat, s: Slots, final: Slots, env: Env, st: State, done: Completion)
    returns (st': State)
    requires CompileStore(name, e, s) == Some(frag) && Need(e) <= need && Before(code, frag, need, s, final, env, st)
    requires done == Store(name, EvalOrZero(e, env), env, st.backEdges)
    ensures Completes(code, cap, st, st', st.pc + |frag.code|, final, done)
  {
    assert Unlock(true);
    var a := CompileOrZero(e, s).value;
    var slot := SlotFor(name, s).0;
    CodeAtSplit(code, st.pc, a, [STORE_LOCAL, slot]);
    GrowsTransitive(s, SlotFor(name, s).1, final);
    st' := OrZeroRuns(code, cap, e, s, final, env, st);
    if EvalOrZero(e, env).Trap? { return; }
    assert name in SlotFor(name, s).1.of;
    st' := StoreRuns(code, cap, slot, name, EvalOrZero(e, env).v, final, env, st');
  }

  /** Where the parts of a conditional at address `pc` lie. */
  function ThenBase(stmt: Stmt, s: Slots, pc: nat): nat
    requires stmt.If? && CompileExpr(stmt.cond, s).Some?
  {
    pc + |CompileExpr(stmt.cond, s).value| + 2
  }

  /** Where a false condition continues: past the then-branch, and past its jump when there is an else. */
  function FalseTarget(stmt: Stmt, s: Slots, pc: nat): nat
    requires stmt.If? && CompileStmt(stmt, s, pc).Some?
  {
    ThenBase(stmt, s, pc) + |CompileNested(stmt.thenBranch, s, ThenBase(stmt, s, pc)).value.code|
    + if stmt.elseBranch.AbsentStmt? then 0 else 2
  }

  lemma TwoArmLayout(stmt: Stmt, s: Slots, pc: nat) returns (c: seq<int>, t: Fragment, f: Fragment)
    requires stmt.If? && !stmt.elseBranch.AbsentStmt? && CompileStmt(stmt, s, pc).Some?
    ensures CompileExpr(stmt.cond, s) == Some(c) && ThenBase(stmt, s, pc) == pc + |c| + 2
    ensures CompileNested(stmt.thenBranch, s, ThenBase(stmt, s, pc)) == Some(t)
    ensures CompileNested(stmt.elseBranch, t.slots, FalseTarget(stmt, s, pc)) == Some(f)
    ensures CompileStmt(stmt, s, pc) ==
      Some(Fragment(c + [JUMP_IF_FALSE, FalseTarget(stmt, s, pc)] + t.code + [JUMP, FalseTarget(stmt, s, pc) + |f.code|] + f.code, f.slots))
  {
    assert stmt == If(stmt.cond, stmt.thenBranch, stmt.elseBranch);
    c := CompileExpr(stmt.cond, s).value;
    t := CompileNested(stmt.thenBranch, s, pc + |c| + 2).value;
    assert FalseTarget(stmt, s, pc) == pc + |c| + 2 + |t.code| + 2;
    f := CompileNested(stmt.elseBranch, t.slots, pc + |c| + 2 + |t.code| + 2).value;
  }

  /** The condition and its branch stand first. */
  lemma CondLayout(code: seq<Int32>, stmt: Stmt, s: Slots, pc: nat)
    requires stmt.If? && CompileStmt(stmt, s, pc).Some? && CodeAt(code, pc, CompileStmt(stmt, s, pc).value.code)
    ensures CompileExpr(stmt.cond, s).Some? && CodeAt(code, pc, CompileExpr(stmt.cond, s).value)
    ensures CodeAt(code, pc + |CompileExpr(stmt.cond, s).value|, [JUMP_IF_FALSE, FalseTarget(stmt, s, pc)])
  {
    var f := FalseTarget(stmt, s, pc);
    if stmt.elseBranch.AbsentStmt? {
      var c, t := OneArmLayout(stmt, s, pc);
      CodeAtSplit(code, pc, c + [JUMP_IF_FALSE, f], t.code);
      CodeAtSplit(code, pc, c, [JUMP_IF_FALSE, f]);
    } else {
      var c, t, e := TwoArmLayout(stmt, s, pc);
      IfElseLayout(code, pc, c, f, t.code, e.code);
    }
  }

  lemma CondOfIf(code: seq<Int32>, stmt: Stmt, frag: Fragment, need: nat, s: Slots, final: Slots, env: Env, st: State)
    requires stmt.If? && st.pc >= 0 && CompileStmt(stmt, s, st.pc) == Some(frag) && NeedStmt(stmt) <= need
    requires Before(code, frag, need, s, final, env, st)
    ensures Ready(code, CompileExpr(stmt.cond, s), Need(stmt.cond), s, final, env, st)
    ensures CodeAt(code, st.pc + |CompileExpr(stmt.cond, s).value|, [JUMP_IF_FALSE, FalseTarget(stmt, s, st.pc)])
  {
    assert Unlock(true);
    CondLayout(code, stmt, s, st.pc);
    GrowsTransitive(s, frag.slots, final);
  }

  /** The machine stands before the then-branch `t`. */
  lemma ThenOfIf(code: seq<Int32>, stmt: Stmt, frag: Fragment, need: nat, s: Slots, final: Slots, env: Env, st: State, st': State)
    returns (t: Fragment)
    requires stmt.If? && st.pc >= 0 && CompileStmt(stmt, s, st.pc) == Some(frag)
    requires Before(code, frag, need, s, final, env, st) && MovedTo(st, st', ThenBase(stmt, s, st.pc))
    ensures CompileNested(stmt.thenBranch, s, st'.pc) == Some(t) && Before(code, t, need, s, final, env, st')
    ensures stmt.elseBranch.AbsentStmt? ==> st'.pc + |t.code| == st.pc + |frag.code|
  {
    assert Unlock(true);
    t := CompileNested(stmt.thenBranch, s, st'.pc).value;
    NestedGrows(stmt.thenBranch, s, st'.pc);
    if stmt.elseBranch.AbsentStmt? {
      ThenWithoutElse(code, stmt, s, final, st.pc);
    } else {
      ThenBeforeElse(code, stmt, s, final, st.pc);
    }
  }

  lemma OneArmLayout(stmt: Stmt, s: Slots, pc: nat) returns (c: seq<int>, t: Fragment)
    requires stmt.If? && stmt.elseBranch.AbsentStmt? && CompileStmt(stmt, s, pc).Some?
    ensures CompileExpr(stmt.cond, s) == Some(c) && ThenBase(stmt, s, pc) == pc + |c| + 2
    ensures CompileNested(stmt.thenBranch, s, ThenBase(stmt, s, pc)) == Some(t)
    ensures CompileStmt(stmt, s, pc) == Some(Fragment(c + [JUMP_IF_FALSE, FalseTarget(stmt, s, pc)] + t.code, t.slots))
  {
    c := CompileExpr(stmt.cond, s).value;
    t := CompileNested(stmt.thenBranch, s, ThenBase(stmt, s, pc)).value;
  }

  lemma ThenWithoutElse(code: seq<Int32>, stmt: Stmt, s: Slots, final: Slots, pc: nat)
    requires stmt.If? && stmt.elseBranch.AbsentStmt? && Proper(s)
    requires CompileStmt(stmt, s, pc).Some? && CodeAt(code, pc, CompileStmt(stmt, s, pc).value.code)
    requires Grows(CompileStmt(stmt, s, pc).value.slots, final)
    ensures var t := CompileNested(stmt.thenBranch, s, ThenBase(stmt, s, pc)).value;
      CodeAt(code, ThenBase(stmt, s, pc), t.code) && Grows(t.slots, final)
  {
    var c, t := OneArmLayout(stmt, s, pc);
    CodeAtSplit(code, pc, c + [JUMP_IF_FALSE, FalseTarget(stmt, s, pc)], t.code);
  }

  lemma ThenBeforeElse(code: seq<Int32>, stmt: Stmt, s: Slots, final: Slots, pc: nat)
    requires stmt.If? && !stmt.elseBranch.AbsentStmt? && Proper(s)
    requires CompileStmt(stmt, s, pc).Some? && CodeAt(code, pc, CompileStmt(stmt, s, pc).value.code)
    requires Grows(CompileStmt(stmt, s, pc).value.slots, final)
    ensures var t := CompileNested(stmt.thenBranch, s, ThenBase(stmt, s, pc)).value;
      CodeAt(code, ThenBase(stmt, s, pc), t.code) && Grows(t.slots, final)
  {
    var f := FalseTarget(stmt, s, pc);
    var c, t, e := TwoArmLayout(stmt, s, pc);
    NestedGrows(stmt.thenBranch, s, ThenBase(stmt, s, pc));
    NestedGrows(stmt.elseBranch, t.slots, f);
    GrowsTransitive(t.slots, e.slots, final);
    IfElseLayout(code, pc, c, f, t.code, e.code);
  }

  /** The machine stands before the else-branch `e`, which the jump after the then-branch `t` skips. */
  lemma ElseOfIf(code: seq<Int32>, stmt: Stmt, frag: Fragment, need: nat, s: Slots, final: Slots, env: Env, st: State, st': State)
    returns (t: Fragment, e: Fragment)
    requires stmt.If? && !stmt.elseBranch.AbsentStmt? && st.pc >= 0 && CompileStmt(stmt, s, st.pc) == Some(frag)
    requires Before(code, frag, need, s, final, env, st) && MovedTo(st, st', FalseTarget(stmt, s, st.pc))
    ensures CompileNested(stmt.thenBranch, s, ThenBase(stmt, s, st.pc)) == Some(t)
    ensures CompileNested(stmt.elseBranch, t.slots, st'.pc) == Some(e) && Before(code, e, need, t.slots, final, env, st')
    ensures CodeAt(code, ThenBase(stmt, s, st.pc) + |t.code|, [JUMP, st.pc + |frag.code|])
    ensures st'.pc + |e.code| == st.pc + |frag.code|
  {
    assert Unlock(true);
    var c;
    c, t, e := TwoArmLayout(stmt, s, st.pc);
    NestedGrows(stmt.thenBranch, s, ThenBase(stmt, s, st.pc));
    NestedGrows(stmt.elseBranch, t.slots, st'.pc);
    IfElseLayout(code, st.pc, c, st'.pc, t.code, e.code);
  }

  lemma TrapsHere(code: seq<Int32>, cap: int, st: State, st': State, end: int, final: Slots, done: Completion)
    requires done.Raised? && Run(code, st, cap) == Trapped(done.kind)
    ensures Completes(code, cap, st, st', end, final, done)
  {}

  /** Nothing left to run. */
  lemma MovesHere(code: seq<Int32>, cap: int, frag: Fragment, need: nat, s: Slots, final: Slots, env: Env, st: State, st': State, end: int,
                  done: Completion)
    requires Before(code, frag, need, s, final, env, st) && MovedTo(st, st', end) && Run(code, st, cap) == Run(code, st', cap)
    requires done == Normal(env, st.backEdges)
    ensures Completes(code, cap, st, st', end, final, done)
  {
    assert Unlock(true);
  }

  /** What happens later also completes from here. */
  lemma Onward(code: seq<Int32>, cap: int, st: State, mid: State, st': State, end: int, final: Slots, c: Completion)
    requires Run(code, st, cap) == Run(code, mid, cap) && |mid.stack| == |st.stack| && |mid.locals| == |st.locals|
    requires Completes(code, cap, mid, st', end, final, c)
    ensures Completes(code, cap, st, st', end, final, c)
  {}

  lemma ExecIf(stmt: Stmt, env: Env, n: nat, cap: int)
    requires stmt.If?
    ensures Exec(stmt, env, n, cap) ==
      if Eval(stmt.cond, env).Trap? then Raised(Eval(stmt.cond, env).kind)
      else if Eval(stmt.cond, env).v != 0 then Exec(stmt.thenBranch, env, n, cap)
      else Exec(stmt.elseBranch, env, n, cap)
  {}

  lemma NoElse(stmt: Stmt, s: Slots, env: Env, n: nat, cap: int, pc: nat)
    requires stmt.If? && stmt.elseBranch.AbsentStmt? && CompileStmt(stmt, s, pc).Some?
    ensures FalseTarget(stmt, s, pc) == pc + |CompileStmt(stmt, s, pc).value.code|
    ensures Exec(stmt.elseBranch, env, n, cap) == Normal(env, n)
  {
    var c, t := OneArmLayout(stmt, s, pc);
  }

  lemma {:induction false} IfRuns(code: seq<Int32>, cap: int, stmt: Stmt, frag: Fragment, need: nat, s: Slots, final: Slots, env: Env, st: State, done: Completion)
    returns (st': State)
    requires stmt.If? && st.pc >= 0 && CompileStmt(stmt, s, st.pc) == Some(frag) && NeedStmt(stmt) <= need
    requires Before(code, frag, need, s, final, env, st)
    requires done == Exec(stmt, env, st.backEdges, cap)
    ensures Completes(code, cap, st, st', st.pc + |frag.code|, final, done)
    decreases Remaining(st.backEdges, cap), stmt, 1
  {
    var end := st.pc + |frag.code|;
    CondOfIf(code, stmt, frag, need, s, final, env, st);
    ExecIf(stmt, env, st.backEdges, cap);
    var mid := CondRuns(code, cap, stmt.cond, FalseTarget(stmt, s, st.pc), s, final, env, st);
    st' := mid;
    var r := Eval(stmt.cond, env);
    if stmt.elseBranch.AbsentStmt? { NoElse(stmt, s, env, st.backEdges, cap, st.pc); }
    if r.Trap? {
      TrapsHere(code, cap, st, mid, end, final, done);
    } else if r.v != 0 {
      var t := ThenOfIf(code, stmt, frag, need, s, final, env, st, mid);
      if stmt.elseBranch.AbsentStmt? {
        st' := NestedRuns(code, cap, stmt.thenBranch, t, need, s, final, env, mid, done);
      } else {
        var t', e := ElseOfIf(code, stmt, frag, need, s, final, env, st, mid.(pc := FalseTarget(stmt, s, st.pc)));
        st' := ThenRuns(code, cap, stmt.thenBranch, t, need, end, s, final, env, mid, done);
      }
      Onward(code, cap, st, mid, st', end, final, done);
    } else if !stmt.elseBranch.AbsentStmt? {
      var t, e := ElseOfIf(code, stmt, frag, need, s, final, env, st, mid);
      st' := NestedRuns(code, cap, stmt.elseBranch, e, need, t.slots, final, env, mid, done);
      Onward(code, cap, st, mid, st', end, final, done);
    } else {
      MovesHere(code, cap, frag, need, s, final, env, st, mid, end, done);
    }
  }

  lemma IfElseLayout(code: seq<Int32>, pc: int, c: seq<int>, elseBase: int, t: seq<int>, f: seq<int>)
    requires CodeAt(code, pc, c + [JUMP_IF_FALSE, elseBase] + t + [JUMP, elseBase + |f|] + f)
    ensures CodeAt(code, pc, c) && CodeAt(code, pc + |c|, [JUMP_IF_FALSE, elseBase])
    ensures CodeAt(code, pc + |c| + 2, t) && CodeAt(code, pc + |c| + 2 + |t|, [JUMP, elseBase + |f|])
    ensures CodeAt(code, pc + |c| + 2 + |t| + 2, f)
  {
    CodeAtSplit(code, pc, c + [JUMP_IF_FALSE, elseBase] + t + [JUMP, elseBase + |f|], f);
    CodeAtSplit(code, pc, c + [JUMP_IF_FALSE, elseBase] + t, [JUMP, elseBase + |f|]);
    CodeAtSplit(code, pc, c + [JUMP_IF_FALSE, elseBase], t);
    CodeAtSplit(code, pc, c, [JUMP_IF_FALSE, elseBase]);
  }

  /** The taken branch of a two-armed conditional, followed by the jump over the other one. */
  lemma {:induction false} ThenRuns(code: seq<Int32>, cap: int, stmt: Stmt, frag: Fragment, need: nat, end: nat, s: Slots, final: Slots, env: Env, st: State, done: Completion)
    returns (st': State)
    requires st.pc >= 0 && CompileNested(stmt, s, st.pc) == Some(frag) && NeedStmt(stmt) <= need
    requires Before(code, frag, need, s, final, env, st)
    requires CodeAt(code, st.pc + |frag.code|, [JUMP, end]) && end > st.pc + |frag.code|
    requires done == Exec(stmt, env, st.backEdges, cap)
    ensures Completes(code, cap, st, st', end, final, done)
    decreases Remaining(st.backEdges, cap), stmt, 4
  {
    st' := NestedRuns(code, cap, stmt, frag, need, s, final, env, st, done);
    assert Unlock(true);
    if done.Normal? {
      st' := JumpRuns(code, cap, end, st');
    }
  }

  /** A loop is its guard, the exit branch, its body and the jump back. */
  lemma WhileLayout(stmt: Stmt, s: Slots, pc: nat) returns (c: seq<int>, b: Fragment)
    requires stmt.While? && CompileStmt(stmt, s, pc).Some?
    ensures CompileExpr(stmt.guard, s) == Some(c) && CompileNested(stmt.body, s, pc + |c| + 2) == Some(b)
    ensures CompileStmt(stmt, s, pc) ==
      Some(Fragment(c + [JUMP_IF_FALSE, pc + |c| + 2 + |b.code| + 2] + b.code + [JUMP, pc], b.slots))
  {
    c := CompileExpr(stmt.guard, s).value;
    b := CompileNested(stmt.body, s, pc + |c| + 2).value;
  }

  /** The machine stands before the guard, and after it before the body. */
  lemma PartsOfWhile(code: seq<Int32>, stmt: Stmt, frag: Fragment, need: nat, s: Slots, final: Slots, env: Env, st: State)
    returns (c: seq<int>, b: Fragment)
    requires stmt.While? && st.pc >= 0 && CompileStmt(stmt, s, st.pc) == Some(frag) && NeedStmt(stmt) <= need
    requires Before(code, frag, need, s, final, env, st)
    ensures CompileExpr(stmt.guard, s) == Some(c) && CompileNested(stmt.body, s, st.pc + |c| + 2) == Some(b)
    ensures |frag.code| >= |c| + 2
    ensures Ready(code, Some(c), Need(stmt.guard), s, final, env, st)
    ensures CodeAt(code, st.pc + |c|, [JUMP_IF_FALSE, st.pc + |frag.code|])
    ensures CodeAt(code, st.pc + |c| + 2 + |b.code|, [JUMP, st.pc])
    ensures Before(code, b, need, s, final, env, st.(pc := st.pc + |c| + 2))
  {
    assert Unlock(true);
    c, b := WhileLayout(stmt, s, st.pc);
    var exit := st.pc + |c| + 2 + |b.code| + 2;
    NestedGrows(stmt.body, s, st.pc + |c| + 2);
    GrowsTransitive(s, b.slots, final);
    CodeAtSplit(code, st.pc, c + [JUMP_IF_FALSE, exit] + b.code, [JUMP, st.pc]);
    CodeAtSplit(code, st.pc, c + [JUMP_IF_FALSE, exit], b.code);
    CodeAtSplit(code, st.pc, c, [JUMP_IF_FALSE, exit]);
  }

  lemma ExecWhileStops(stmt: Stmt, env: Env, n: nat, cap: int)
    requires stmt.While?
    ensures Eval(stmt.guard, env).Trap? ==> Exec(stmt, env, n, cap) == Raised(Eval(stmt.guard, env).kind)
    ensures Eval(stmt.guard, env) == Value(0) ==> Exec(stmt, env, n, cap) == Normal(env, n)
  {}

  lemma ExecWhile(stmt: Stmt, env: Env, n: nat, cap: int)
    requires stmt.While? && Eval(stmt.guard, env).Value? && Eval(stmt.guard, env).v != 0
    ensures var c := Exec(stmt.body, env, n, cap);
      Exec(stmt, env, n, cap) ==
        if !c.Normal? then c
        else if c.iterations + 1 > cap then LoopCapExceeded
        else Exec(stmt, c.env, c.iterations + 1, cap)
  {}

  lemma {:induction false} WhileRuns(code: seq<Int32>, cap: int, stmt: Stmt, frag: Fragment, need: nat, s: Slots, final: Slots, env: Env, st: State,
                                     done: Completion)
    returns (st': State)
    requires stmt.While? && st.pc >= 0 && CompileStmt(stmt, s, st.pc) == Some(frag) && NeedStmt(stmt) <= need
    requires Before(code, frag, need, s, final, env, st) && done == Exec(stmt, env, st.backEdges, cap)
    ensures Completes(code, cap, st, st', st.pc + |frag.code|, final, done)
    decreases Remaining(st.backEdges, cap), stmt, 0
  {
    var end := st.pc + |frag.code|;
    var c, b := PartsOfWhile(code, stmt, frag, need, s, final, env, st);
    var mid := CondRuns(code, cap, stmt.guard, end, s, final, env, st);
    st' := mid;
    ExecWhileStops(stmt, env, st.backEdges, cap);
    if Eval(stmt.guard, env).Trap? {
      TrapsHere(code, cap, st, mid, end, final, done);
    } else if Eval(stmt.guard, env).v == 0 {
      MovesHere(code, cap, frag, need, s, final, env, st, mid, end, done);
    } else {
      BothStillStand(code, frag, b, need, s, final, env, st, mid, |c| + 2);
      st' := IterationRuns(code, cap, stmt, frag, b, need, st.pc, s, final, env, mid, done);
      Onward(code, cap, st, mid, st', end, final, done);
    }
  }

  /** With the guard evaluated, the machine stands before the body, and it will stand before the loop again. */
  lemma BothStillStand(code: seq<Int32>, frag: Fragment, b: Fragment, need: nat, s: Slots, final: Slots, env: Env, st: State, mid: State, skip: nat)
    requires st.pc >= 0 && Before(code, frag, need, s, final, env, st) && Before(code, b, need, s, final, env, st.(pc := st.pc + skip))
    requires MovedTo(st, mid, st.pc + skip)
    ensures Before(code, frag, need, s, final, env, mid.(pc := st.pc)) && Before(code, b, need, s, final, env, mid)
  {
    AgreesStill(code, frag, need, s, final, env, st, mid);
    BeforeAgain(code, frag, need, s, final, env, st, env, mid.(pc := st.pc));
    BeforeAgain(code, b, need, s, final, env, st.(pc := st.pc + skip), env, mid);
  }

  lemma AgreesStill(code: seq<Int32>, frag: Fragment, need: nat, s: Slots, final: Slots, env: Env, st: State, st': State)
    requires Before(code, frag, need, s, final, env, st) && st'.locals == st.locals
    ensures Agrees(env, st'.locals, final)
  {
    assert Unlock(true);
  }

  lemma NormalMeans(code: seq<Int32>, cap: int, st: State, st': State, end: int, final: Slots, c: Completion)
    requires Completes(code, cap, st, st', end, final, c) && c.Normal?
    ensures Run(code, st, cap) == Run(code, st', cap) && st'.pc == end && st'.sp == 0 && st'.backEdges == c.iterations
    ensures |st'.stack| == |st.stack| && |st'.locals| == |st.locals| && Agrees(c.env, st'.locals, final)
  {
    assert Unlock(true);
  }

  lemma BeforeAgain(code: seq<Int32>, frag: Fragment, need: nat, s: Slots, final: Slots,
                    env: Env, st: State, env': Env, st': State)
    requires Before(code, frag, need, s, final, env, st)
    requires st'.pc == st.pc && st'.sp == 0 && |st'.stack| == |st.stack| && Agrees(env', st'.locals, final)
    ensures Before(code, frag, need, s, final, env', st')
  {}

  /** From the start of a loop body to the end of the whole loop. */
  lemma {:induction false} IterationRuns(code: seq<Int32>, cap: int, stmt: Stmt, frag: Fragment, b: Fragment, need: nat, base: nat,
                                         s: Slots, final: Slots, env: Env, st: State, done: Completion)
    returns (st': State)
    requires stmt.While? && CompileStmt(stmt, s, base) == Some(frag) && NeedStmt(stmt) <= need
    requires Before(code, frag, need, s, final, env, st.(pc := base)) && base <= st.pc
    requires CompileNested(stmt.body, s, st.pc) == Some(b) && Before(code, b, need, s, final, env, st)
    requires CodeAt(code, st.pc + |b.code|, [JUMP, base])
    requires Eval(stmt.guard, env).Value? && Eval(stmt.guard, env).v != 0 && done == Exec(stmt, env, st.backEdges, cap)
    ensures Completes(code, cap, st, st', base + |frag.code|, final, done)
    decreases Remaining(st.backEdges, cap), stmt.body, 5
  {
    ExecWhile(stmt, env, st.backEdges, cap);
    var r := Exec(stmt.body, env, st.backEdges, cap);
    var mid := NestedRuns(code, cap, stmt.body, b, need, s, final, env, st, r);
    st' := mid;
    if r.Normal? {
      NormalMeans(code, cap, st, mid, st.pc + |b.code|, final, r);
      BeforeAgain(code, frag, need, s, final, env, st.(pc := base), r.env, mid.(pc := base));
      st' := BackEdgeRuns(code, cap, stmt, frag, need, base, s, final, r.env, mid, done);
      Onward(code, cap, st, mid, st', base + |frag.code|, final, done);
    } else {
      StopsAnywhere(code, cap, st, mid, st.pc + |b.code|, base + |frag.code|, final, done);
    }
  }

  /** A run that stops does so wherever it was meant to end. */
  lemma StopsAnywhere(code: seq<Int32>, cap: int, st: State, st': State, end: int, end': int, final: Slots, c: Completion)
    requires Completes(code, cap, st, st', end, final, c) && !c.Normal?
    ensures Completes(code, cap, st, st', end', final, c)
  {}

  /** The jump at the end of a loop body: the iteration is counted, and the loop stops or goes on. */
  lemma {:induction false} BackEdgeRuns(code: seq<Int32>, cap: int, stmt: Stmt, frag: Fragment, need: nat, base: nat,
                                        s: Slots, final: Slots, env: Env, st: State, done: Completion)
    returns (st': State)
    requires stmt.While? && CompileStmt(stmt, s, base) == Some(frag) && NeedStmt(stmt) <= need
    requires Before(code, frag, need, s, final, env, st.(pc := base))
    requires done == if st.backEdges + 1 > cap then LoopCapExceeded else Exec(stmt, env, st.backEdges + 1, cap)
    requires CodeAt(code, st.pc, [JUMP, base]) && base <= st.pc
    ensures Completes(code, cap, st, st', base + |frag.code|, final, done)
    decreases Remaining(st.backEdges, cap), stmt.body, 4
  {
    var mid := JumpRuns(code, cap, base, st);
    st' := mid;
    if st.backEdges + 1 <= cap {
      AgreesStill(code, frag, need, s, final, env, st.(pc := base), mid);
      BeforeAgain(code, frag, need, s, final, env, st.(pc := base), env, mid);
      st' := WhileRuns(code, cap, stmt, frag, need, s, final, env, mid, done);
      Onward(code, cap, st, mid, st', base + |frag.code|, final, done);
    }
  }

  /** A block is its first statement's code followed by the rest's. */
  lemma BlockLayout(stmts: seq<Stmt>, s: Slots, pc: nat) returns (a: Fragment, b: Fragment)
    requires stmts != [] && CompileBlock(stmts, s, pc).Some?
    ensures CompileStmt(stmts[0], s, pc) == Some(a) && CompileBlock(stmts[1..], a.slots, pc + |a.code|) == Some(b)
    ensures CompileBlock(stmts, s, pc) == Some(Fragment(a.code + b.code, b.slots))
  {
    a := CompileStmt(stmts[0], s, pc).value;
    b := CompileBlock(stmts[1..], a.slots, pc + |a.code|).value;
  }

  /** The machine stands before the first statement, and after it before the rest. */
  lemma PartsOfBlock(code: seq<Int32>, stmts: seq<Stmt>, frag: Fragment, need: nat, s: Slots, final: Slots, env: Env, st: State)
    returns (a: Fragment, b: Fragment)
    requires stmts != [] && st.pc >= 0 && CompileBlock(stmts, s, st.pc) == Some(frag) && Before(code, frag, need, s, final, env, st)
    ensures CompileStmt(stmts[0], s, st.pc) == Some(a) && CompileBlock(stmts[1..], a.slots, st.pc + |a.code|) == Some(b)
    ensures |frag.code| == |a.code| + |b.code|
    ensures Before(code, a, need, s, final, env, st)
    ensures Before(code, b, need, a.slots, final, env, st.(pc := st.pc + |a.code|))
  {
    assert Unlock(true);
    a, b := BlockLayout(stmts, s, st.pc);
    StmtGrows(stmts[0], s, st.pc);
    BlockGrows(stmts[1..], a.slots, st.pc + |a.code|);
    GrowsTransitive(a.slots, b.slots, final);
    CodeAtSplit(code, st.pc, a.code, b.code);
  }

  lemma {:induction false} BlockRuns(code: seq<Int32>, cap: int, stmts: seq<Stmt>, frag: Fragment, need: nat, s: Slots, final: Slots, env: Env, st: State, done: Completion)
    returns (st': State)
    requires st.pc >= 0 && CompileBlock(stmts, s, st.pc) == Some(frag) && NeedBlock(stmts) <= need
    requires Before(code, frag, need, s, final, env, st)
    requires done == ExecBlock(stmts, env, st.backEdges, cap)
    ensures Completes(code, cap, st, st', st.pc + |frag.code|, final, done)
    decreases Remaining(st.backEdges, cap), stmts, 0
  {
    st' := st;
    if stmts != [] {
      var end := st.pc + |frag.code|;
      var a, b := PartsOfBlock(code, stmts, frag, need, s, final, env, st);
      var r := Exec(stmts[0], env, st.backEdges, cap);
      var mid := StmtRuns(code, cap, stmts[0], a, need, s, final, env, st, r);
      st' := mid;
      if r.Normal? {
        NormalMeans(code, cap, st, mid, st.pc + |a.code|, final, r);
        BeforeAgain(code, b, need, a.slots, final, env, st.(pc := st.pc + |a.code|), r.env, mid);
        st' := BlockRuns(code, cap, stmts[1..], b, need, a.slots, final, r.env, mid, done);
        Onward(code, cap, st, mid, st', end, final, done);
      } else {
        StopsAnywhere(code, cap, st, mid, st.pc + |a.code|, end, final, done);
      }
    }
  }
}
