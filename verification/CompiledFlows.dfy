/** Running a whole compiled flow is what the flow means; what the bound on the stack is for. */
module CompiledFlows {
  import opened Folding
  import opened Options
  import opened I32Arith
  import opened FlowLanguage
  import opened BytecodeCompiler
  import opened BytecodeVm
  import opened CompilerCorrectness

  ghost predicate Fits(words: seq<int>) {
    forall i :: 0 <= i < |words| ==> I32_MIN <= words[i] <= I32_MAX
  }

  lemma {:induction false} ExprFits(e: Expr, s: Slots)
    requires CompileExpr(e, s).Some? && Proper(s) && s.next <= I32_MAX
    ensures Fits(CompileExpr(e, s).value)
    decreases e, 1
  {
    match e
    case Binary(_, _, _) => BinaryFits(e, s);
    case Unary(_, _) => UnaryFits(e, s);
    case _ =>
  }

  lemma {:induction false} BinaryFits(e: Expr, s: Slots)
    requires e.Binary? && CompileExpr(e, s).Some? && Proper(s) && s.next <= I32_MAX
    ensures Fits(CompileExpr(e, s).value)
    decreases e, 0
  {
    var a, b := CompileExpr(e.left, s).value, CompileExpr(e.right, s).value;
    ExprFits(e.left, s);
    ExprFits(e.right, s);
    FitsConcat(a, b);
    FitsConcat(a + b, [BinopToOp(e.op).value]);
  }

  lemma {:induction false} UnaryFits(e: Expr, s: Slots)
    requires e.Unary? && CompileExpr(e, s).Some? && Proper(s) && s.next <= I32_MAX
    ensures Fits(CompileExpr(e, s).value)
    decreases e, 0
  {
    ExprFits(e.operand, s);
    FitsConcat(CompileExpr(e.operand, s).value, [if e.uop.Minus? then NEG else NOT]);
  }

  /** Constants were range-checked; slots and jump targets are bounded by the two lengths. */
  lemma {:induction false} StmtFits(stmt: Stmt, s: Slots, base: nat)
    requires CompileStmt(stmt, s, base).Some? && Proper(s)
    requires var f := CompileStmt(stmt, s, base).value; base + |f.code| <= I32_MAX && f.slots.next <= I32_MAX
    ensures Fits(CompileStmt(stmt, s, base).value.code)
    decreases stmt, 1
  {
    StmtGrows(stmt, s, base);
    match stmt
    case Let(_, e) => if !e.AbsentExpr? { ExprFits(e, s); }
    case Assign(_, e) => if !e.AbsentExpr? { ExprFits(e, s); }
    case Return(e) => if !e.AbsentExpr? { ExprFits(e, s); }
    case If(_, _, _) => IfFits(stmt, s, base);
    case While(_, _) => WhileFits(stmt, s, base);
    case Block(stmts) =>
      BlockFits(stmts, s, base);
  }

  lemma FitsConcat(a: seq<int>, b: seq<int>)
    requires Fits(a) && Fits(b)
    ensures Fits(a + b)
  {}

  lemma {:induction false} WhileFits(stmt: Stmt, s: Slots, base: nat)
    requires stmt.While? && CompileStmt(stmt, s, base).Some? && Proper(s)
    requires var f := CompileStmt(stmt, s, base).value; base + |f.code| <= I32_MAX && f.slots.next <= I32_MAX
    ensures Fits(CompileStmt(stmt, s, base).value.code)
    decreases stmt, 0
  {
    var c := CompileExpr(stmt.guard, s).value;
    var bodyBase := base + |c| + 2;
    var b := CompileNested(stmt.body, s, bodyBase).value;
    NestedGrows(stmt.body, s, bodyBase);
    ExprFits(stmt.guard, s);
    NestedFits(stmt.body, s, bodyBase);
    var exit := bodyBase + |b.code| + 2;
    FitsConcat(c, [JUMP_IF_FALSE, exit]);
    FitsConcat(c + [JUMP_IF_FALSE, exit], b.code);
    FitsConcat(c + [JUMP_IF_FALSE, exit] + b.code, [JUMP, base]);
  }

  lemma {:induction false} IfFits(stmt: Stmt, s: Slots, base: nat)
    requires stmt.If? && CompileStmt(stmt, s, base).Some? && Proper(s)
    requires var f := CompileStmt(stmt, s, base).value; base + |f.code| <= I32_MAX && f.slots.next <= I32_MAX
    ensures Fits(CompileStmt(stmt, s, base).value.code)
    decreases stmt, 0
  {
    var c := CompileExpr(stmt.cond, s).value;
    var thenBase := base + |c| + 2;
    var t := CompileNested(stmt.thenBranch, s, thenBase).value;
    NestedGrows(stmt.thenBranch, s, thenBase);
    var e := thenBase + |t.code| + if stmt.elseBranch.AbsentStmt? then 0 else 2;
    if !stmt.elseBranch.AbsentStmt? {
      NestedGrows(stmt.elseBranch, t.slots, e);
    }
    ExprFits(stmt.cond, s);
    NestedFits(stmt.thenBranch, s, thenBase);
    FitsConcat(c, [JUMP_IF_FALSE, e]);
    FitsConcat(c + [JUMP_IF_FALSE, e], t.code);
    if !stmt.elseBranch.AbsentStmt? {
      var f := CompileNested(stmt.elseBranch, t.slots, e).value;
      NestedFits(stmt.elseBranch, t.slots, e);
      FitsConcat(c + [JUMP_IF_FALSE, e] + t.code, [JUMP, e + |f.code|]);
      FitsConcat(c + [JUMP_IF_FALSE, e] + t.code + [JUMP, e + |f.code|], f.code);
    }
  }

  lemma {:induction false} NestedFits(stmt: Stmt, s: Slots, base: nat)
    requires CompileNested(stmt, s, base).Some? && Proper(s)
    requires var f := CompileNested(stmt, s, base).value; base + |f.code| <= I32_MAX && f.slots.next <= I32_MAX
    ensures Fits(CompileNested(stmt, s, base).value.code)
    decreases stmt, 2
  {
    if !stmt.AbsentStmt? { StmtFits(stmt, s, base); }
  }

  lemma {:induction false} BlockFits(stmts: seq<Stmt>, s: Slots, base: nat)
    requires CompileBlock(stmts, s, base).Some? && Proper(s)
    requires var f := CompileBlock(stmts, s, base).value; base + |f.code| <= I32_MAX && f.slots.next <= I32_MAX
    ensures Fits(CompileBlock(stmts, s, base).value.code)
    decreases stmts, 0
  {
    if stmts != [] {
      var a := CompileStmt(stmts[0], s, base).value;
      StmtGrows(stmts[0], s, base);
      BlockGrows(stmts[1..], a.slots, base + |a.code|);
      StmtFits(stmts[0], s, base);
      BlockFits(stmts[1..], a.slots, base + |a.code|);
    }
  }

  lemma {:induction false} ParamsGrow(params: seq<Param>, s: Slots)
    requires Proper(s) && DeclareParams(params, s).Some?
    ensures Proper(DeclareParams(params, s).value) && Grows(s, DeclareParams(params, s).value)
  {
    if params != [] { ParamsGrow(params[1..], SlotFor(params[0].name, s).1); }
  }

  /** What the machine answers when a flow completes with `c`. */
  function Answer(c: Completion): Outcome
    requires !c.Normal?
  {
    match c
    case Returned(v) => Result(Word(v))
    case Raised(kind) => Trapped(kind)
    case LoopCapExceeded => LoopCap
  }

  /** The compiler accepts the flow, and its code and slots are addressable with 32-bit words. */
  ghost predicate Addressable(flow: Flow) {
    && CompileWords(flow).Some?
    && |CompileWords(flow).value.code| <= I32_MAX && CompileWords(flow).value.slots.next <= I32_MAX
  }

  /** Moreover no expression needs more than the machine's stack. */
  ghost predicate Runnable(flow: Flow) {
    Addressable(flow) && NeedStmt(flow.body) <= STACK_SLOTS
  }

  /** The machine starts before the body. */
  lemma StartsBefore(flow: Flow, args: seq<int>, env: Env)
    requires Runnable(flow)
    requires Agrees(env, InitialLocals(CompileWords(flow).value.slots.next, args), CompileWords(flow).value.slots)
    ensures var params := DeclareParams(flow.params, EMPTY_SLOTS).value; var p := CompileFlow(flow).value;
      CompileStmt(flow.body, params, 0).Some? &&
      Before(p.code, CompileStmt(flow.body, params, 0).value, STACK_SLOTS, params, CompileWords(flow).value.slots, env, InitialState(p, args))
  {
    WordsInPlace(flow);
    ParamsGrow(flow.params, EMPTY_SLOTS);
    StmtGrows(flow.body, DeclareParams(flow.params, EMPTY_SLOTS).value, 0);
  }

  lemma AbnormalMeans(code: seq<Int32>, cap: int, st: State, st': State, end: int, final: Slots, c: Completion)
    requires Completes(code, cap, st, st', end, final, c) && !c.Normal?
    ensures Run(code, st, cap) == Answer(c)
  {
    assert Unlock(true);
  }

  /** Running off the end returns zero. */
  lemma ImplicitReturnRuns(code: seq<Int32>, cap: int, st: State)
    requires CodeAt(code, st.pc, IMPLICIT_RETURN) && st.sp == 0 && |st.stack| > 0
    ensures Run(code, st, cap) == Result(Word(0))
  {
    assert IMPLICIT_RETURN == [LOAD_CONST, 0] + [RETURN];
    CodeAtSplit(code, st.pc, [LOAD_CONST, 0], [RETURN]);
    var st' := LoadRuns(code, cap, LOAD_CONST, 0, 0, st);
    ReturnRuns(code, cap, st');
  }

  /** From any environment the initial slots agree with, the run of the compiled flow is its meaning. */
  lemma FlowRuns(flow: Flow, args: seq<int>, cap: int, env: Env)
    requires Runnable(flow)
    requires Agrees(env, InitialLocals(CompileWords(flow).value.slots.next, args), CompileWords(flow).value.slots)
    ensures var p := CompileFlow(flow).value;
      Run(p.code, InitialState(p, args), cap) == Answer(Finish(Exec(flow.body, env, 0, cap)))
  {
    var params := DeclareParams(flow.params, EMPTY_SLOTS).value;
    var slots := CompileWords(flow).value.slots;
    var frag := CompileStmt(flow.body, params, 0).value;
    var body := frag.code;
    var p := CompileFlow(flow).value;
    StartsBefore(flow, args, env);
    var start := InitialState(p, args);
    var c := Exec(flow.body, env, 0, cap);
    var st' := StmtRuns(p.code, cap, flow.body, frag, STACK_SLOTS, params, slots, env, start, c);
    if c.Normal? {
      NormalMeans(p.code, cap, start, st', |body|, slots, c);
      WordsInPlace(flow);
      ImplicitReturnRuns(p.code, cap, st');
    } else {
      AbnormalMeans(p.code, cap, start, st', |body|, slots, c);
    }
  }

  /** Narrowing the words to 32 bits changed none of them. */
  lemma WordsInPlace(flow: Flow)
    requires Runnable(flow)
    ensures var body := CompileStmt(flow.body, DeclareParams(flow.params, EMPTY_SLOTS).value, 0).value.code;
      var code := CompileFlow(flow).value.code;
      CodeAt(code, 0, body) && CodeAt(code, |body|, IMPLICIT_RETURN)
  {
    var params := DeclareParams(flow.params, EMPTY_SLOTS).value;
    var body := CompileStmt(flow.body, params, 0).value.code;
    ParamsGrow(flow.params, EMPTY_SLOTS);
    StmtFits(flow.body, params, 0);
    FitsConcat(body, IMPLICIT_RETURN);
    assert CodeAt(CompileFlow(flow).value.code, 0, body + IMPLICIT_RETURN);
    CodeAtSplit(CompileFlow(flow).value.code, 0, body, IMPLICIT_RETURN);
  }

  /** The variables as the argument positions leave them, whatever the number of arguments. */
  function StartEnv(slots: Slots, args: seq<int>): Env {
    map x | x in slots.of :: if slots.of[x] < |args| then ToInt32(args[slots.of[x]]) else 0
  }

  /** For every accepted flow that fits the machine, every argument list and every cap, the run of the
      compiled code is the meaning of the flow from the environment the arguments set up. */
  lemma CompiledFlowIsCorrect(flow: Flow, args: seq<int>, cap: int)
    requires Runnable(flow)
    ensures var p := CompileFlow(flow).value;
      Run(p.code, InitialState(p, args), cap)
      == Answer(Finish(Exec(flow.body, StartEnv(CompileWords(flow).value.slots, args), 0, cap)))
  {
    ParamsGrow(flow.params, EMPTY_SLOTS);
    StmtGrows(flow.body, DeclareParams(flow.params, EMPTY_SLOTS).value, 0);
    FlowRuns(flow, args, cap, StartEnv(CompileWords(flow).value.slots, args));
  }

  // ----- What the stack hypothesis is for -----

  lemma SingletonBlock(stmt: Stmt, s: Slots, base: nat)
    requires CompileStmt(stmt, s, base).Some?
    ensures CompileBlock([stmt], s, base) == CompileStmt(stmt, s, base)
  {
    var f := CompileStmt(stmt, s, base).value;
    assert [stmt][1..] == [];
    assert CompileBlock([], f.slots, base + |f.code|) == Some(Fragment([], f.slots));
    assert f.code + [] == f.code;
  }

  /** 1 + (1 + (... + 1)), which needs n + 1 stack slots. */
  function Deep(n: nat): (e: Expr)
    ensures Need(e) == n + 1
  {
    if n == 0 then Number(1) else Binary(Plus, Number(1), Deep(n - 1))
  }

  lemma {:induction false} DeepMeaning(n: nat, env: Env)
    requires n < I32_MAX
    ensures Eval(Deep(n), env) == Value(n + 1)
  {
    if n > 0 {
      DeepMeaning(n - 1, env);
      DeeperMeaning(Deep(n - 1), n, env);
    }
  }

  lemma DeeperMeaning(e: Expr, n: nat, env: Env)
    requires 0 < n < I32_MAX && Eval(e, env) == Value(n)
    ensures Eval(Binary(Plus, Number(1), e), env) == Value(n + 1)
  {
    assert Eval(Number(1), env) == Value(1);
  }

  function DeepCode(n: nat): (code: seq<int>)
    ensures |code| == 3 * n + 2 && Fits(code)
  {
    if n == 0 then [LOAD_CONST, 1] else [LOAD_CONST, 1] + DeepCode(n - 1) + [ADD]
  }

  lemma {:induction false} DeepCompiles(n: nat, s: Slots)
    ensures CompileExpr(Deep(n), s) == Some(DeepCode(n))
  {
    if n == 0 { assert Deep(0) == Number(1) && DeepCode(0) == [LOAD_CONST, 1]; } else {
      var e, code := Deep(n - 1), DeepCode(n - 1);
      DeepCompiles(n - 1, s);
      DeeperCompiles(e, code, s);
      assert Deep(n) == Binary(Plus, Number(1), e) && DeepCode(n) == [LOAD_CONST, 1] + code + [ADD];
    }
  }

  lemma DeeperCompiles(e: Expr, code: seq<int>, s: Slots)
    requires CompileExpr(e, s) == Some(code)
    ensures CompileExpr(Binary(Plus, Number(1), e), s) == Some([LOAD_CONST, 1] + code + [ADD])
  {
    assert CompileExpr(Number(1), s) == Some([LOAD_CONST, 1]) && BinopToOp(Plus) == Some(ADD);
  }

  /** What the machine leaves in stack slot `k` for `Deep(n)`: past the last slot the pushes are
      dropped, the addition that reads them back computes zero, and the sums above start from there. */
  function DeepResult(n: nat, k: nat): int {
    if k + n < STACK_SLOTS then n + 1 else STACK_SLOTS - 1 - k
  }

  lemma {:induction false} DeepRuns(code: seq<Int32>, cap: int, n: nat, st: State) returns (st': State)
    requires CodeAt(code, st.pc, DeepCode(n))
    requires |st.stack| == STACK_SLOTS && 0 <= st.sp
    ensures Run(code, st, cap) == Run(code, st', cap)
    ensures st'.pc == st.pc + |DeepCode(n)| && st'.sp == st.sp + 1
    ensures |st'.stack| == STACK_SLOTS
    ensures forall i :: 0 <= i < st.sp && i < STACK_SLOTS ==> st'.stack[i] == st.stack[i]
    ensures st.sp < STACK_SLOTS ==> st'.stack[st.sp] == DeepResult(n, st.sp)
  {
    if n == 0 {
      st' := PushOne(code, cap, st);
    } else {
      CodeAtSplit(code, st.pc, [LOAD_CONST, 1] + DeepCode(n - 1), [ADD]);
      CodeAtSplit(code, st.pc, [LOAD_CONST, 1], DeepCode(n - 1));
      var st1 := PushOne(code, cap, st);
      var st2 := DeepRuns(code, cap, n - 1, st1);
      st' := AddDeep(code, cap, n, st, st1, st2);
    }
  }

  /** The addition after the pushes of one level. */
  lemma AddDeep(code: seq<Int32>, cap: int, n: nat, st: State, st1: State, st2: State) returns (st': State)
    requires n > 0 && |st.stack| == STACK_SLOTS && 0 <= st.sp && st1 == st.(pc := st.pc + 2, sp := st.sp + 1, stack := Write(st.stack, st.sp, 1))
    requires CodeAt(code, st2.pc, [ADD]) && st2.sp == st1.sp + 1 && |st2.stack| == STACK_SLOTS
    requires forall i :: 0 <= i < st1.sp && i < STACK_SLOTS ==> st2.stack[i] == st1.stack[i]
    requires st1.sp < STACK_SLOTS ==> st2.stack[st1.sp] == DeepResult(n - 1, st1.sp)
    ensures Run(code, st2, cap) == Run(code, st', cap)
    ensures st'.pc == st2.pc + 1 && st'.sp == st.sp + 1 && |st'.stack| == STACK_SLOTS
    ensures forall i :: 0 <= i < st.sp && i < STACK_SLOTS ==> st'.stack[i] == st.stack[i]
    ensures st.sp < STACK_SLOTS ==> st'.stack[st.sp] == DeepResult(n, st.sp)
  {
    assert st.sp < STACK_SLOTS ==> st2.stack[st.sp] == 1;
    st' := AddRuns(code, cap, st2);
  }

  /** An addition whose right operand may lie past the last slot. */
  lemma AddRuns(code: seq<Int32>, cap: int, st: State) returns (st': State)
    requires CodeAt(code, st.pc, [ADD]) && st.sp >= 2 && |st.stack| == STACK_SLOTS
    requires st.sp <= STACK_SLOTS ==> AddChecked(st.stack[st.sp - 2], st.stack[st.sp - 1]).Value?
    ensures Run(code, st, cap) == Run(code, st', cap)
    ensures st'.pc == st.pc + 1 && st'.sp == st.sp - 1
    ensures st'.stack ==
      if st.sp <= STACK_SLOTS then st.stack[st.sp - 2 := AddChecked(st.stack[st.sp - 2], st.stack[st.sp - 1]).v]
      else Write(st.stack, st.sp - 2, 0)
  {
    assert code[st.pc] == [ADD][0];
    st' := Step(code, st, cap).state;
  }

  lemma PushOne(code: seq<Int32>, cap: int, st: State) returns (st': State)
    requires CodeAt(code, st.pc, [LOAD_CONST, 1]) && 0 <= st.sp
    ensures Run(code, st, cap) == Run(code, st', cap)
    ensures st' == st.(pc := st.pc + 2, sp := st.sp + 1, stack := Write(st.stack, st.sp, 1))
  {
    assert code[st.pc] == [LOAD_CONST, 1][0] && code[st.pc + 1] == [LOAD_CONST, 1][1];
    st' := Step(code, st, cap).state;
  }

  function DeepFlow(n: nat): Flow {
    Flow([], Block([Return(Deep(n))]), false)
  }

  /** The stack hypothesis is needed: on this family the compiled flow returns what the flow means
      exactly when the expression's stack need is within the 256 slots; beyond that it silently
      returns 255. */
  lemma StackNeedIsExact(n: nat, cap: int)
    requires 3 * n + 6 <= I32_MAX
    ensures CompileFlow(DeepFlow(n)).Some? && NeedStmt(DeepFlow(n).body) == n + 1
    ensures var p := CompileFlow(DeepFlow(n)).value;
      var got := Run(p.code, InitialState(p, []), cap);
      && got == Result(Word(if n + 1 <= STACK_SLOTS then n + 1 else 255))
      && (got == Answer(RunFlow(DeepFlow(n), [], cap)) <==> NeedStmt(DeepFlow(n).body) <= STACK_SLOTS)
  {
    DeepFlowMeaning(n, cap);
    DeepFlowRuns(n, cap);
    DeepFlowCompiles(n);
  }

  /** The run is the meaning on every argument list. */
  ghost predicate AlwaysRight(flow: Flow, cap: int)
    requires Addressable(flow)
  {
    forall args: seq<int> :: RunOf(flow, args, cap) == MeaningOf(flow, args, cap)
  }

  ghost function RunOf(flow: Flow, args: seq<int>, cap: int): Outcome
    requires Addressable(flow)
  {
    var p := CompileFlow(flow).value;
    Run(p.code, InitialState(p, args), cap)
  }

  ghost function MeaningOf(flow: Flow, args: seq<int>, cap: int): Outcome
    requires Addressable(flow)
  {
    Answer(Finish(Exec(flow.body, StartEnv(CompileWords(flow).value.slots, args), 0, cap)))
  }

  ghost predicate AllOfNeedRight(n: nat, cap: int) {
    forall flow: Flow :: Addressable(flow) && NeedStmt(flow.body) == n ==> AlwaysRight(flow, cap)
  }

  /** A stack need is safe, that is all flows with that need are right on all arguments, if and only if
      it is at most 256. */
  lemma StackBoundIsExact(n: nat, cap: int)
    requires 3 * n + 6 <= I32_MAX
    ensures AllOfNeedRight(n, cap) <==> n <= STACK_SLOTS
  {
    if n <= STACK_SLOTS {
      forall flow: Flow | Addressable(flow) && NeedStmt(flow.body) == n ensures AlwaysRight(flow, cap) {
        forall args: seq<int> ensures RunOf(flow, args, cap) == MeaningOf(flow, args, cap) { CompiledFlowIsCorrect(flow, args, cap); }
      }
    } else {
      TooDeepIsWrong(n, cap);
    }
  }

  lemma TooDeepIsWrong(n: nat, cap: int)
    requires STACK_SLOTS < n && 3 * n + 6 <= I32_MAX
    ensures !AllOfNeedRight(n, cap)
  {
    DeepDiffers(n - 1, cap);
    assert !AlwaysRight(DeepFlow(n - 1), cap);
  }

  lemma DeepDiffers(n: nat, cap: int)
    requires STACK_SLOTS <= n && 3 * n + 6 <= I32_MAX
    ensures var flow := DeepFlow(n); Addressable(flow) && NeedStmt(flow.body) == n + 1
    ensures var flow := DeepFlow(n); RunOf(flow, [], cap) != MeaningOf(flow, [], cap)
  {
    DeepFlowCompiles(n);
    StackNeedIsExact(n, cap);
    assert StartEnv(EMPTY_SLOTS, []) == map[] == Bind([], []);
  }

  lemma DeepFlowMeaning(n: nat, cap: int)
    requires n < I32_MAX
    ensures Answer(RunFlow(DeepFlow(n), [], cap)) == Result(Word(n + 1))
  {
    DeepMeaning(n, map[]);
    assert [Return(Deep(n))][1..] == [];
    assert ExecBlock([Return(Deep(n))], map[], 0, cap) == Returned(n + 1);
  }

  lemma DeepFlowRuns(n: nat, cap: int)
    requires 3 * n + 6 <= I32_MAX
    ensures CompileFlow(DeepFlow(n)).Some?
    ensures var p := CompileFlow(DeepFlow(n)).value;
      Run(p.code, InitialState(p, []), cap) == Result(Word(DeepResult(n, 0)))
  {
    DeepFlowCompiles(n);
    var code := Int32ArrayFrom(DeepCode(n) + [RETURN] + IMPLICIT_RETURN);
    DeepWords(n);
    var st := State(0, 0, seq(STACK_SLOTS, _ => 0), InitialLocals(0, []), 0);
    var st' := DeepRuns(code, cap, n, st);
    ReturnRuns(code, cap, st');
  }

  lemma ReturnRuns(code: seq<Int32>, cap: int, st: State)
    requires CodeAt(code, st.pc, [RETURN])
    ensures Run(code, st, cap) == Result(Read(st.stack, st.sp - 1))
  {
    assert code[st.pc] == [RETURN][0];
  }

  lemma DeepWords(n: nat)
    ensures var code := Int32ArrayFrom(DeepCode(n) + [RETURN] + IMPLICIT_RETURN);
      CodeAt(code, 0, DeepCode(n)) && CodeAt(code, |DeepCode(n)|, [RETURN])
  {
    var words := DeepCode(n) + [RETURN] + IMPLICIT_RETURN;
    FitsConcat(DeepCode(n), [RETURN]);
    FitsConcat(DeepCode(n) + [RETURN], IMPLICIT_RETURN);
    var code := Int32ArrayFrom(words);
    assert CodeAt(code, 0, words);
    CodeAtSplit(code, 0, DeepCode(n) + [RETURN], IMPLICIT_RETURN);
    CodeAtSplit(code, 0, DeepCode(n), [RETURN]);
  }

  lemma DeepFlowCompiles(n: nat)
    ensures CompileWords(DeepFlow(n)) == Some(Fragment(DeepCode(n) + [RETURN] + IMPLICIT_RETURN, EMPTY_SLOTS))
    ensures NeedStmt(DeepFlow(n).body) == n + 1
  {
    DeepCompiles(n, EMPTY_SLOTS);
    ReturnCompiles(Deep(n), EMPTY_SLOTS, DeepCode(n));
    assert DeepFlow(n).body == Block([Return(Deep(n))]);
    OneStatementFlow(Return(Deep(n)), DeepCode(n) + [RETURN]);
    NeedOfOne(Return(Deep(n)));
  }

  lemma NeedOfOne(stmt: Stmt)
    ensures NeedStmt(Block([stmt])) == NeedStmt(stmt)
  {
    assert [stmt][1..] == [];
    assert NeedBlock([stmt]) == MaxNat(NeedStmt(stmt), NeedBlock([]));
  }

  lemma ReturnCompiles(e: Expr, s: Slots, code: seq<int>)
    requires CompileExpr(e, s) == Some(code) && !e.AbsentExpr?
    ensures CompileStmt(Return(e), s, 0) == Some(Fragment(code + [RETURN], s))
  {
    assert CompileOrZero(e, s) == Some(code);
  }

  lemma OneStatementFlow(stmt: Stmt, code: seq<int>)
    requires CompileStmt(stmt, EMPTY_SLOTS, 0) == Some(Fragment(code, EMPTY_SLOTS))
    ensures CompileWords(Flow([], Block([stmt]), false)) == Some(Fragment(code + IMPLICIT_RETURN, EMPTY_SLOTS))
  {
    SingletonBlock(stmt, EMPTY_SLOTS, 0);
    assert CompileStmt(Block([stmt]), EMPTY_SLOTS, 0) == Some(Fragment(code, EMPTY_SLOTS));
    assert DeclareParams([], EMPTY_SLOTS) == Some(EMPTY_SLOTS);
  }
}
