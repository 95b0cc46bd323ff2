/** Every jump the compiler patches lands on the start of an instruction. */
module JumpTargets {
  import opened Options
  import opened FlowLanguage
  import opened BytecodeCompiler
  import opened CompilerCorrectness

  function Width(op: int): nat {
    if op == LOAD_CONST || op == LOAD_LOCAL || op == STORE_LOCAL || op == JUMP || op == JUMP_IF_FALSE then 2 else 1
  }

  predicate IsJump(op: int) {
    op == JUMP || op == JUMP_IF_FALSE
  }

  /** Decoding from the start, instruction after instruction, stops at offset `i`. */
  predicate Boundary(code: seq<int>, i: int)
    decreases |code|
  {
    || i == 0
    || (code != [] && Width(code[0]) <= |code| && Width(code[0]) <= i
        && Boundary(code[Width(code[0])..], i - Width(code[0])))
  }

  /** The words are a whole number of instructions. */
  predicate Decodes(code: seq<int>) {
    Boundary(code, |code|)
  }

  /** Every jump instruction in the code has a target in `targets`. */
  ghost predicate JumpsInto(code: seq<int>, targets: iset<int>) {
    forall i :: 0 <= i < |code| && Boundary(code, i) && IsJump(code[i]) ==> i + 1 < |code| && code[i + 1] in targets
  }

  /** `targets` has the address of every instruction of code placed at `base`, and of its end. */
  ghost predicate Covers(targets: iset<int>, base: int, code: seq<int>) {
    forall i {:trigger Boundary(code, i)} :: Boundary(code, i) ==> base + i in targets
  }

  lemma {:induction false} BoundaryConcat(a: seq<int>, b: seq<int>, i: int)
    requires Decodes(a)
    ensures Boundary(a + b, i) <==> if i < |a| then Boundary(a, i) else Boundary(b, i - |a|)
    decreases |a|
  {
    if a == [] {
      assert a + b == b;
    } else {
      var w := Width(a[0]);
      assert (a + b)[w..] == a[w..] + b;
      BoundaryConcat(a[w..], b, i - w);
    }
  }

  lemma DecodesConcat(a: seq<int>, b: seq<int>)
    requires Decodes(a) && Decodes(b)
    ensures Decodes(a + b)
  {
    BoundaryConcat(a, b, |a| + |b|);
  }

  lemma JumpsConcat(a: seq<int>, b: seq<int>, targets: iset<int>)
    requires Decodes(a) && JumpsInto(a, targets) && JumpsInto(b, targets)
    ensures JumpsInto(a + b, targets)
  {
    forall i | 0 <= i < |a + b| && Boundary(a + b, i) && IsJump((a + b)[i])
      ensures i + 1 < |a + b| && (a + b)[i + 1] in targets
    {
      BoundaryConcat(a, b, i);
      if i < |a| { assert a[i] == (a + b)[i]; } else { assert b[i - |a|] == (a + b)[i]; }
    }
  }

  lemma CoversConcat(targets: iset<int>, base: int, a: seq<int>, b: seq<int>)
    requires Decodes(a) && Covers(targets, base, a + b)
    ensures Covers(targets, base, a) && Covers(targets, base + |a|, b)
  {
    forall i | Boundary(a, i) ensures base + i in targets {
      BoundaryInside(a, i);
      BoundaryConcat(a, b, i);
    }
    forall i | Boundary(b, i) ensures base + |a| + i in targets {
      BoundaryInside(b, i);
      BoundaryConcat(a, b, |a| + i);
    }
  }

  lemma {:induction false} BoundaryInside(code: seq<int>, i: int)
    requires Boundary(code, i)
    ensures 0 <= i <= |code|
    decreases |code|
  {
    if i != 0 { BoundaryInside(code[Width(code[0])..], i - Width(code[0])); }
  }

  lemma OneInstruction(code: seq<int>, targets: iset<int>)
    requires code != [] && |code| == Width(code[0])
    requires IsJump(code[0]) ==> code[1] in targets
    ensures Decodes(code) && JumpsInto(code, targets)
  {
    assert code[Width(code[0])..] == [];
    forall i | 0 <= i < |code| && Boundary(code, i) ensures i == 0 {}
  }

  lemma {:induction false} ExprJumps(e: Expr, s: Slots, targets: iset<int>)
    requires CompileExpr(e, s).Some?
    ensures Decodes(CompileExpr(e, s).value) && JumpsInto(CompileExpr(e, s).value, targets)
  {
    if e.Binary? {
      var a, b, o := CompileExpr(e.left, s).value, CompileExpr(e.right, s).value, [BinopToOp(e.op).value];
      ExprJumps(e.left, s, targets);
      ExprJumps(e.right, s, targets);
      OneInstruction(o, targets);
      Chain(a, b, targets);
      Chain(a + b, o, targets);
    } else if e.Unary? {
      var o := [if e.uop.Minus? then NEG else NOT];
      ExprJumps(e.operand, s, targets);
      OneInstruction(o, targets);
      Chain(CompileExpr(e.operand, s).value, o, targets);
    } else {
      OneInstruction(CompileExpr(e, s).value, targets);
    }
  }

  lemma Chain(a: seq<int>, b: seq<int>, targets: iset<int>)
    requires Decodes(a) && JumpsInto(a, targets) && Decodes(b) && JumpsInto(b, targets)
    ensures Decodes(a + b) && JumpsInto(a + b, targets)
  {
    DecodesConcat(a, b);
    JumpsConcat(a, b, targets);
  }

  lemma OrZeroJumps(e: Expr, s: Slots, last: seq<int>, targets: iset<int>)
    requires CompileOrZero(e, s).Some?
    requires last != [] && |last| == Width(last[0]) && !IsJump(last[0])
    ensures Decodes(CompileOrZero(e, s).value + last) && JumpsInto(CompileOrZero(e, s).value + last, targets)
  {
    if e.AbsentExpr? { OneInstruction([LOAD_CONST, 0], targets); } else { ExprJumps(e, s, targets); }
    OneInstruction(last, targets);
    Chain(CompileOrZero(e, s).value, last, targets);
  }

  lemma {:induction false} StmtDecodes(stmt: Stmt, s: Slots, base: nat)
    requires CompileStmt(stmt, s, base).Some?
    ensures Decodes(CompileStmt(stmt, s, base).value.code)
    decreases stmt, 1
  {
    match stmt
    case Let(name, e) => OrZeroJumps(e, s, [STORE_LOCAL, SlotFor(name, s).0], iset{});
    case Assign(name, e) => OrZeroJumps(e, s, [STORE_LOCAL, SlotFor(name, s).0], iset{});
    case Return(e) => OrZeroJumps(e, s, [RETURN], iset{});
    case If(_, _, _) => IfDecodes(stmt, s, base);
    case While(_, _) => WhileDecodes(stmt, s, base);
    case Block(stmts) => BlockDecodes(stmts, s, base);
  }

  lemma {:induction false} IfDecodes(stmt: Stmt, s: Slots, base: nat)
    requires stmt.If? && CompileStmt(stmt, s, base).Some?
    ensures Decodes(CompileStmt(stmt, s, base).value.code)
    decreases stmt, 0
  {
    var c := CompileExpr(stmt.cond, s).value;
    var thenBase := base + |c| + 2;
    var t := CompileNested(stmt.thenBranch, s, thenBase).value;
    ExprJumps(stmt.cond, s, iset{});
    NestedDecodes(stmt.thenBranch, s, thenBase);
    if stmt.elseBranch.AbsentStmt? {
      GuardedDecodes(c, thenBase + |t.code|, t.code);
    } else {
      var e := thenBase + |t.code| + 2;
      var f := CompileNested(stmt.elseBranch, t.slots, e).value.code;
      NestedDecodes(stmt.elseBranch, t.slots, e);
      TwoArmedDecodes(c, e, t.code, f);
    }
  }

  lemma GuardedDecodes(c: seq<int>, exit: int, t: seq<int>)
    requires Decodes(c) && Decodes(t)
    ensures Decodes(c + [JUMP_IF_FALSE, exit]) && Decodes(c + [JUMP_IF_FALSE, exit] + t)
  {
    OneInstruction([JUMP_IF_FALSE, exit], iset{exit});
    DecodesConcat(c, [JUMP_IF_FALSE, exit]);
    DecodesConcat(c + [JUMP_IF_FALSE, exit], t);
  }

  lemma TwoArmedDecodes(c: seq<int>, e: int, t: seq<int>, f: seq<int>)
    requires Decodes(c) && Decodes(t) && Decodes(f)
    ensures Decodes(c + [JUMP_IF_FALSE, e] + t + [JUMP, e + |f|])
    ensures Decodes(c + [JUMP_IF_FALSE, e] + t + [JUMP, e + |f|] + f)
  {
    GuardedDecodes(c, e, t);
    OneInstruction([JUMP, e + |f|], iset{e + |f|});
    DecodesConcat(c + [JUMP_IF_FALSE, e] + t, [JUMP, e + |f|]);
    DecodesConcat(c + [JUMP_IF_FALSE, e] + t + [JUMP, e + |f|], f);
  }

  lemma {:induction false} WhileDecodes(stmt: Stmt, s: Slots, base: nat)
    requires stmt.While? && CompileStmt(stmt, s, base).Some?
    ensures Decodes(CompileStmt(stmt, s, base).value.code)
    decreases stmt, 0
  {
    var c := CompileExpr(stmt.guard, s).value;
    var bodyBase := base + |c| + 2;
    var b := CompileNested(stmt.body, s, bodyBase).value.code;
    var exit := bodyBase + |b| + 2;
    ExprJumps(stmt.guard, s, iset{});
    OneInstruction([JUMP_IF_FALSE, exit], iset{exit});
    DecodesConcat(c, [JUMP_IF_FALSE, exit]);
    NestedDecodes(stmt.body, s, bodyBase);
    DecodesConcat(c + [JUMP_IF_FALSE, exit], b);
    OneInstruction([JUMP, base], iset{base});
    DecodesConcat(c + [JUMP_IF_FALSE, exit] + b, [JUMP, base]);
  }

  lemma {:induction false} NestedDecodes(stmt: Stmt, s: Slots, base: nat)
    requires CompileNested(stmt, s, base).Some?
    ensures Decodes(CompileNested(stmt, s, base).value.code)
    decreases stmt, 2
  {
    if !stmt.AbsentStmt? { StmtDecodes(stmt, s, base); }
  }

  lemma {:induction false} BlockDecodes(stmts: seq<Stmt>, s: Slots, base: nat)
    requires CompileBlock(stmts, s, base).Some?
    ensures Decodes(CompileBlock(stmts, s, base).value.code)
    decreases stmts, 0
  {
    if stmts != [] {
      var a := CompileStmt(stmts[0], s, base).value;
      StmtDecodes(stmts[0], s, base);
      BlockDecodes(stmts[1..], a.slots, base + |a.code|);
      DecodesConcat(a.code, CompileBlock(stmts[1..], a.slots, base + |a.code|).value.code);
    }
  }

  lemma {:induction false} StmtJumps(stmt: Stmt, s: Slots, base: nat, targets: iset<int>)
    requires CompileStmt(stmt, s, base).Some? && Covers(targets, base, CompileStmt(stmt, s, base).value.code)
    ensures JumpsInto(CompileStmt(stmt, s, base).value.code, targets)
    decreases stmt, 2
  {
    match stmt
    case Let(name, e) => OrZeroJumps(e, s, [STORE_LOCAL, SlotFor(name, s).0], targets);
    case Assign(name, e) => OrZeroJumps(e, s, [STORE_LOCAL, SlotFor(name, s).0], targets);
    case Return(e) => OrZeroJumps(e, s, [RETURN], targets);
    case If(_, _, _) => IfJumps(stmt, s, base, targets);
    case While(_, _) => WhileJumps(stmt, s, base, targets);
    case Block(stmts) => BlockJumps(stmts, s, base, targets);
  }

  lemma {:induction false} IfJumps(stmt: Stmt, s: Slots, base: nat, targets: iset<int>)
    requires stmt.If? && CompileStmt(stmt, s, base).Some?
    requires Covers(targets, base, CompileStmt(stmt, s, base).value.code)
    ensures JumpsInto(CompileStmt(stmt, s, base).value.code, targets)
    decreases stmt, 1
  {
    if stmt.elseBranch.AbsentStmt? {
      OneArmJumps(stmt, s, base, targets);
    } else {
      TwoArmJumps(stmt, s, base, targets);
    }
  }

  lemma {:induction false} OneArmJumps(stmt: Stmt, s: Slots, base: nat, targets: iset<int>)
    requires stmt.If? && stmt.elseBranch.AbsentStmt? && CompileStmt(stmt, s, base).Some?
    requires Covers(targets, base, CompileStmt(stmt, s, base).value.code)
    ensures JumpsInto(CompileStmt(stmt, s, base).value.code, targets)
    decreases stmt, 0
  {
    var c := CompileExpr(stmt.cond, s).value;
    var thenBase := base + |c| + 2;
    var t := CompileNested(stmt.thenBranch, s, thenBase).value.code;
    ExprJumps(stmt.cond, s, targets);
    NestedDecodes(stmt.thenBranch, s, thenBase);
    GuardedCovers(c, thenBase + |t|, t, base, targets);
    NestedJumps(stmt.thenBranch, s, thenBase, targets);
    GuardedJumps(c, thenBase + |t|, t, targets);
  }

  lemma {:induction false} TwoArmJumps(stmt: Stmt, s: Slots, base: nat, targets: iset<int>)
    requires stmt.If? && !stmt.elseBranch.AbsentStmt? && CompileStmt(stmt, s, base).Some?
    requires Covers(targets, base, CompileStmt(stmt, s, base).value.code)
    ensures JumpsInto(CompileStmt(stmt, s, base).value.code, targets)
    decreases stmt, 0
  {
    var c := CompileExpr(stmt.cond, s).value;
    var thenBase := base + |c| + 2;
    var t := CompileNested(stmt.thenBranch, s, thenBase).value;
    var e := thenBase + |t.code| + 2;
    var f := CompileNested(stmt.elseBranch, t.slots, e).value.code;
    ExprJumps(stmt.cond, s, targets);
    NestedDecodes(stmt.thenBranch, s, thenBase);
    NestedDecodes(stmt.elseBranch, t.slots, e);
    TwoArmedCovers(c, e, t.code, f, base, targets);
    NestedJumps(stmt.thenBranch, s, thenBase, targets);
    NestedJumps(stmt.elseBranch, t.slots, e, targets);
    TwoArmedJumps(c, e, t.code, f, targets);
  }

  lemma GuardedCovers(c: seq<int>, exit: int, t: seq<int>, base: int, targets: iset<int>)
    requires Decodes(c) && Decodes(t) && exit == base + |c| + 2 + |t|
    requires Covers(targets, base, c + [JUMP_IF_FALSE, exit] + t)
    ensures Covers(targets, base + |c| + 2, t) && exit in targets
  {
    GuardedDecodes(c, exit, t);
    CoversConcat(targets, base, c + [JUMP_IF_FALSE, exit], t);
    assert Boundary(t, |t|);
  }

  lemma GuardedJumps(c: seq<int>, exit: int, t: seq<int>, targets: iset<int>)
    requires Decodes(c) && JumpsInto(c, targets) && Decodes(t) && JumpsInto(t, targets) && exit in targets
    ensures Decodes(c + [JUMP_IF_FALSE, exit] + t) && JumpsInto(c + [JUMP_IF_FALSE, exit] + t, targets)
  {
    OneInstruction([JUMP_IF_FALSE, exit], targets);
    Chain(c, [JUMP_IF_FALSE, exit], targets);
    Chain(c + [JUMP_IF_FALSE, exit], t, targets);
  }

  lemma TwoArmedCovers(c: seq<int>, e: int, t: seq<int>, f: seq<int>, base: int, targets: iset<int>)
    requires Decodes(c) && Decodes(t) && Decodes(f) && e == base + |c| + 2 + |t| + 2
    requires Covers(targets, base, c + [JUMP_IF_FALSE, e] + t + [JUMP, e + |f|] + f)
    ensures Covers(targets, base + |c| + 2, t) && Covers(targets, e, f)
    ensures e in targets && e + |f| in targets
  {
    var head := c + [JUMP_IF_FALSE, e];
    TwoArmedDecodes(c, e, t, f);
    GuardedDecodes(c, e, t);
    CoversConcat(targets, base, head + t + [JUMP, e + |f|], f);
    CoversConcat(targets, base, head + t, [JUMP, e + |f|]);
    CoversConcat(targets, base, head, t);
    assert Boundary(f, 0) && Boundary(f, |f|);
  }

  lemma TwoArmedJumps(c: seq<int>, e: int, t: seq<int>, f: seq<int>, targets: iset<int>)
    requires Decodes(c) && JumpsInto(c, targets) && Decodes(t) && JumpsInto(t, targets)
    requires Decodes(f) && JumpsInto(f, targets) && e in targets && e + |f| in targets
    ensures JumpsInto(c + [JUMP_IF_FALSE, e] + t + [JUMP, e + |f|] + f, targets)
  {
    GuardedJumps(c, e, t, targets);
    OneInstruction([JUMP, e + |f|], targets);
    Chain(c + [JUMP_IF_FALSE, e] + t, [JUMP, e + |f|], targets);
    Chain(c + [JUMP_IF_FALSE, e] + t + [JUMP, e + |f|], f, targets);
  }

  lemma {:induction false} WhileJumps(stmt: Stmt, s: Slots, base: nat, targets: iset<int>)
    requires stmt.While? && CompileStmt(stmt, s, base).Some?
    requires Covers(targets, base, CompileStmt(stmt, s, base).value.code)
    ensures JumpsInto(CompileStmt(stmt, s, base).value.code, targets)
    decreases stmt, 1
  {
    var c := CompileExpr(stmt.guard, s).value;
    var bodyBase := base + |c| + 2;
    var b := CompileNested(stmt.body, s, bodyBase).value.code;
    var exit := bodyBase + |b| + 2;
    var head := c + [JUMP_IF_FALSE, exit];
    var back := [JUMP, base];
    ExprJumps(stmt.guard, s, targets);
    NestedDecodes(stmt.body, s, bodyBase);
    OneInstruction([JUMP_IF_FALSE, exit], iset{exit});
    OneInstruction(back, iset{base});
    DecodesConcat(c, [JUMP_IF_FALSE, exit]);
    DecodesConcat(head, b);
    CoversConcat(targets, base, head + b, back);
    CoversConcat(targets, base, head, b);
    assert Boundary(back, 2) && Boundary(c, 0);
    assert Boundary(head, 0);
    NestedJumps(stmt.body, s, bodyBase, targets);
    OneInstruction(back, targets);
    GuardedJumps(c, exit, b, targets);
    Chain(head + b, back, targets);
  }

  lemma {:induction false} NestedJumps(stmt: Stmt, s: Slots, base: nat, targets: iset<int>)
    requires CompileNested(stmt, s, base).Some? && Covers(targets, base, CompileNested(stmt, s, base).value.code)
    ensures JumpsInto(CompileNested(stmt, s, base).value.code, targets)
    decreases stmt, 3
  {
    if !stmt.AbsentStmt? { StmtJumps(stmt, s, base, targets); }
  }

  lemma {:induction false} BlockJumps(stmts: seq<Stmt>, s: Slots, base: nat, targets: iset<int>)
    requires CompileBlock(stmts, s, base).Some? && Covers(targets, base, CompileBlock(stmts, s, base).value.code)
    ensures JumpsInto(CompileBlock(stmts, s, base).value.code, targets)
    decreases stmts, 0
  {
    if stmts != [] {
      var a := CompileStmt(stmts[0], s, base).value;
      var b := CompileBlock(stmts[1..], a.slots, base + |a.code|).value.code;
      StmtDecodes(stmts[0], s, base);
      CoversConcat(targets, base, a.code, b);
      StmtJumps(stmts[0], s, base, targets);
      BlockJumps(stmts[1..], a.slots, base + |a.code|, targets);
      JumpsConcat(a.code, b, targets);
    }
  }

  /** In the code of any accepted flow, every jump lands on the start of an instruction inside it. */
  lemma JumpsLandOnInstructions(flow: Flow, i: nat)
    requires CompileWords(flow).Some?
    requires var code := CompileWords(flow).value.code; i < |code| && Boundary(code, i) && IsJump(code[i])
    ensures var code := CompileWords(flow).value.code;
      i + 1 < |code| && 0 <= code[i + 1] < |code| && Boundary(code, code[i + 1])
  {
    var params := DeclareParams(flow.params, EMPTY_SLOTS).value;
    var body := CompileStmt(flow.body, params, 0).value.code;
    var targets := iset k | Boundary(body, k);
    StmtDecodes(flow.body, params, 0);
    StmtJumps(flow.body, params, 0, targets);
    BoundaryConcat(body, IMPLICIT_RETURN, i);
    if i >= |body| {
      assert IMPLICIT_RETURN[i - |body|] == (body + IMPLICIT_RETURN)[i];
      ReturnHasNoJumps(i - |body|);
    }
    assert i < |body|;
    assert body[i] == (body + IMPLICIT_RETURN)[i];
    BoundaryInside(body, body[i + 1]);
    BoundaryConcat(body, IMPLICIT_RETURN, body[i + 1]);
  }

  lemma ReturnHasNoJumps(k: int)
    requires 0 <= k < |IMPLICIT_RETURN| && Boundary(IMPLICIT_RETURN, k)
    ensures !IsJump(IMPLICIT_RETURN[k])
  {}
}
