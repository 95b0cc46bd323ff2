/** Calling a compiled flow with a list of arguments (`bytecode-vm.ts`, runBytecode and tryRunBytecode):
    on which argument lists the run is the call with the parameters bound to the arguments. */
module CompiledCalls {
  import opened Options
  import opened I32Arith
  import opened FlowLanguage
  import opened BytecodeCompiler
  import opened BytecodeVm
  import opened CompilerCorrectness
  import opened CompiledFlows

  /** What the machine finds at argument position `k`. */
  function ArgAt(args: seq<int>, k: nat): Int32 {
    if k < |args| then ToInt32(args[k]) else 0
  }

  /** Every parameter's slot holds the argument bound to the parameter, and what is left over is zero. */
  ghost predicate ArgumentsFit(params: seq<Param>, args: seq<int>)
    requires DeclareParams(params, EMPTY_SLOTS).Some?
  {
    var s := DeclareParams(params, EMPTY_SLOTS).value;
    && (forall x :: x in s.of ==> ArgAt(args, s.of[x]) == Lookup(Bind(params, args), x))
    && SurplusIsZero(s.next, args)
  }

  ghost predicate SurplusIsZero(taken: nat, args: seq<int>) {
    forall k :: taken <= k < |args| ==> ToInt32(args[k]) == 0
  }

  // ----- Fitting arguments are enough -----

  ghost predicate IsParam(params: seq<Param>, x: string) {
    exists i :: 0 <= i < |params| && params[i].name == x
  }

  ghost predicate Has(s: Slots, x: string, k: int) {
    x in s.of && s.of[x] == k
  }

  ghost predicate Taken(s: Slots, k: int) {
    exists x :: Has(s, x, k)
  }

  /** Every slot handed out belongs to some name. */
  ghost predicate Full(s: Slots) {
    forall k :: 0 <= k < s.next ==> Taken(s, k)
  }

  lemma IsParamSplits(params: seq<Param>, x: string)
    requires params != []
    ensures IsParam(params, x) <==> params[0].name == x || IsParam(params[1..], x)
  {
    if IsParam(params, x) && params[0].name != x {
      var i :| 0 <= i < |params| && params[i].name == x;
      assert params[1..][i - 1].name == x;
    }
    if IsParam(params[1..], x) {
      var i :| 0 <= i < |params[1..]| && params[1..][i].name == x;
      assert params[i + 1].name == x;
    }
  }

  /** The parameters take the first slots, without gaps. */
  lemma {:induction false} ParamsTake(params: seq<Param>, s: Slots)
    requires Proper(s) && Full(s) && DeclareParams(params, s).Some?
    ensures var s' := DeclareParams(params, s).value;
      Full(s') && s'.next <= s.next + |params| && forall x :: x in s'.of <==> x in s.of || IsParam(params, x)
  {
    if params != [] {
      var t := SlotFor(params[0].name, s).1;
      forall k | 0 <= k < t.next ensures Taken(t, k) {
        if k < s.next {
          assert Taken(s, k);
          var x :| Has(s, x, k);
          assert Has(t, x, k);
        } else {
          assert Has(t, params[0].name, k);
        }
      }
      ParamsTake(params[1..], t);
      forall x ensures IsParam(params, x) <==> params[0].name == x || IsParam(params[1..], x) { IsParamSplits(params, x); }
    }
  }

  lemma {:induction false} UnboundIsZero(params: seq<Param>, args: seq<int>, x: string)
    requires !IsParam(params, x)
    ensures Lookup(Bind(params, args), x) == 0
  {
    if params != [] && args != [] {
      IsParamSplits(params, x);
      UnboundIsZero(params[1..], args[1..], x);
    }
  }

  /** The slots before the body. */
  lemma ParamTable(params: seq<Param>) returns (s: Slots)
    requires DeclareParams(params, EMPTY_SLOTS).Some?
    ensures DeclareParams(params, EMPTY_SLOTS) == Some(s) && Proper(s) && Full(s) && s.next <= |params|
    ensures forall x :: x in s.of <==> IsParam(params, x)
  {
    s := DeclareParams(params, EMPTY_SLOTS).value;
    ParamsGrow(params, EMPTY_SLOTS);
    ParamsTake(params, EMPTY_SLOTS);
  }

  lemma OthersComeLater(s: Slots, final: Slots, x: string)
    requires Full(s) && Grows(s, final) && Proper(final) && x in final.of && x !in s.of
    ensures final.of[x] >= s.next
  {
    var slot := final.of[x];
    forall k | Taken(s, k) ensures k != slot {
      var y :| Has(s, y, k);
      assert Has(final, y, k) && y != x;
    }
    assert slot < s.next ==> Taken(s, slot);
  }

  /** With fitting arguments the compiled flow returns, traps or hits the loop cap exactly as the call means. */
  lemma FittingCallIsCorrect(flow: Flow, args: seq<int>, cap: int)
    requires Runnable(flow) && ArgumentsFit(flow.params, args)
    ensures var p := CompileFlow(flow).value;
      Run(p.code, InitialState(p, args), cap) == Answer(RunFlow(flow, args, cap))
  {
    var s := ParamTable(flow.params);
    StmtGrows(flow.body, s, 0);
    var final := CompileWords(flow).value.slots;
    var locals := InitialLocals(final.next, args);
    forall x | x in final.of ensures final.of[x] < |locals| && locals[final.of[x]] == Lookup(Bind(flow.params, args), x) {
      var k := final.of[x];
      if x !in s.of {
        UnboundIsZero(flow.params, args, x);
        OthersComeLater(s, final, x);
        assert ArgAt(args, k) == 0;
      }
      assert locals[k] == ArgAt(args, k);
    }
    FlowRuns(flow, args, cap, Bind(flow.params, args));
  }

  // ----- Distinct parameters -----

  ghost predicate DistinctParams(params: seq<Param>) {
    forall i, j :: 0 <= i < j < |params| ==> params[i].name != params[j].name
  }

  /** Distinct parameters take the slots in order. */
  lemma {:induction false} ParamSlots(params: seq<Param>, s: Slots)
    requires Proper(s) && DeclareParams(params, s).Some? && DistinctParams(params)
    requires forall p :: p in params ==> p.name !in s.of
    ensures var s' := DeclareParams(params, s).value;
      s'.next == s.next + |params|
      && (forall i :: 0 <= i < |params| ==> params[i].name in s'.of && s'.of[params[i].name] == s.next + i)
  {
    if params != [] {
      var t := SlotFor(params[0].name, s).1;
      forall p | p in params[1..] ensures p.name !in t.of {
        var i :| 0 <= i < |params[1..]| && params[1..][i] == p;
        assert params[0].name != params[i + 1].name;
      }
      ParamSlots(params[1..], t);
      ParamsGrow(params[1..], t);
      var s' := DeclareParams(params, s).value;
      forall i | 0 <= i < |params| ensures params[i].name in s'.of && s'.of[params[i].name] == s.next + i {
        if i > 0 { assert params[i] == params[1..][i - 1]; }
      }
    }
  }

  lemma {:induction false} BindLookup(params: seq<Param>, args: seq<int>, x: string)
    requires DistinctParams(params)
    ensures (forall i :: 0 <= i < |params| ==> params[i].name != x) ==> Lookup(Bind(params, args), x) == 0
    ensures forall i :: 0 <= i < |params| && params[i].name == x ==>
      Lookup(Bind(params, args), x) == if i < |args| then ToInt32(args[i]) else 0
  {
    if params != [] && args != [] {
      BindLookup(params[1..], args[1..], x);
      forall i | 0 <= i < |params| && params[i].name == x
        ensures Lookup(Bind(params, args), x) == if i < |args| then ToInt32(args[i]) else 0
      {
        if i > 0 { assert params[1..][i - 1].name == x; }
      }
      if forall i :: 0 <= i < |params| ==> params[i].name != x {
        forall i | 0 <= i < |params[1..]| ensures params[1..][i].name != x { assert params[i + 1].name != x; }
      }
    }
  }

  /** Distinct parameters take the arguments in order, so only the surplus matters. */
  lemma DistinctParamsFit(params: seq<Param>, args: seq<int>)
    requires DeclareParams(params, EMPTY_SLOTS).Some? && DistinctParams(params)
    ensures ArgumentsFit(params, args) <==> SurplusIsZero(|params|, args)
  {
    var s := ParamTable(params);
    ParamSlots(params, EMPTY_SLOTS);
    forall x | x in s.of ensures ArgAt(args, s.of[x]) == Lookup(Bind(params, args), x) {
      BindLookup(params, args, x);
      var i :| 0 <= i < |params| && params[i].name == x;
      assert s.of[x] == i;
    }
  }

  /** Called with distinct parameters and nothing but zeros too many, the compiled flow returns, traps
      or hits the loop cap exactly as the flow means. */
  lemma CompiledCallIsCorrect(flow: Flow, args: seq<int>, cap: int)
    requires Runnable(flow) && DistinctParams(flow.params) && SurplusIsZero(|flow.params|, args)
    ensures var p := CompileFlow(flow).value;
      Run(p.code, InitialState(p, args), cap) == Answer(RunFlow(flow, args, cap))
  {
    DistinctParamsFit(flow.params, args);
    FittingCallIsCorrect(flow, args, cap);
  }

  // ----- Only fitting arguments are -----

  ghost predicate RightOn(flow: Flow, args: seq<int>, cap: int) {
    Runnable(flow) ==>
      var p := CompileFlow(flow).value;
      Run(p.code, InitialState(p, args), cap) == Answer(RunFlow(flow, args, cap))
  }

  /** Every flow with these parameters that the machine can hold is right on the arguments. */
  ghost predicate AllRight(params: seq<Param>, args: seq<int>, cap: int) {
    forall flow: Flow :: flow.params == params ==> RightOn(flow, args, cap)
  }

  /** The keywords `true` and `false`, which the parser takes for no parameter. */
  predicate IsLiteral(x: string) {
    x == "true" || x == "false"
  }

  function ReadingFlow(params: seq<Param>, x: string): Flow {
    Flow(params, Block([Return(Identifier(x))]), false)
  }

  /** A flow that returns one of its parameters returns what its slot holds. */
  lemma ParamIsRead(params: seq<Param>, args: seq<int>, cap: int, s: Slots, x: string)
    requires DeclareParams(params, EMPTY_SLOTS) == Some(s) && Proper(s) && x in s.of && !IsLiteral(x) && s.next <= I32_MAX
    ensures var flow := ReadingFlow(params, x);
      && Runnable(flow)
      && var p := CompileFlow(flow).value;
      && Run(p.code, InitialState(p, args), cap) == Result(Word(ArgAt(args, s.of[x])))
      && Answer(RunFlow(flow, args, cap)) == Result(Word(Lookup(Bind(params, args), x)))
  {
    var flow := ReadingFlow(params, x);
    var stmt := Return(Identifier(x));
    var frag := Fragment([LOAD_LOCAL, s.of[x]] + [RETURN], s);
    ReturnCompiles(Identifier(x), s, [LOAD_LOCAL, s.of[x]]);
    SingletonBlock(stmt, s, 0);
    assert CompileStmt(flow.body, s, 0) == Some(frag);
    assert CompileWords(flow) == Some(Fragment(frag.code + IMPLICIT_RETURN, s));
    NeedOfOne(stmt);
    CompiledFlowIsCorrect(flow, args, cap);
    ReturnOnly(Identifier(x), StartEnv(s, args), cap);
    ReturnOnly(Identifier(x), Bind(params, args), cap);
  }

  lemma ReturnOnly(e: Expr, env: Env, cap: int)
    requires e.Identifier? && !IsLiteral(e.name)
    ensures Exec(Block([Return(e)]), env, 0, cap) == Returned(Lookup(env, e.name))
  {
    assert ExecBlock([Return(e)], env, 0, cap) == Returned(Lookup(env, e.name));
  }

  /** Names longer than `n` characters, each longer than the one before. */
  function LongName(n: nat): (x: string)
    ensures |x| == n
  {
    seq(n, _ => 'v')
  }

  function Lets(n: nat, m: nat): seq<Stmt>
    decreases m
  {
    if m == 0 then [] else [Let(LongName(n + 1), AbsentExpr)] + Lets(n + 1, m - 1)
  }

  ghost predicate ShorterNames(s: Slots, n: nat) {
    forall x :: x in s.of ==> |x| <= n
  }

  lemma NewLet(x: string, s: Slots, base: nat) returns (f: Fragment)
    requires Proper(s) && x !in s.of
    ensures CompileStmt(Let(x, AbsentExpr), s, base) == Some(f) && |f.code| == 4
    ensures f.slots == Slots(s.of[x := s.next], s.next + 1) && Proper(f.slots)
  {
    f := Fragment([LOAD_CONST, 0] + [STORE_LOCAL, s.next], Slots(s.of[x := s.next], s.next + 1));
    assert CompileStore(x, AbsentExpr, s) == Some(f);
  }

  lemma ConsCompiles(a: Stmt, rest: seq<Stmt>, s: Slots, base: nat, f: Fragment, g: Fragment)
    requires CompileStmt(a, s, base) == Some(f) && CompileBlock(rest, f.slots, base + |f.code|) == Some(g)
    ensures CompileBlock([a] + rest, s, base) == Some(Fragment(f.code + g.code, g.slots))
    ensures NeedBlock([a] + rest) == MaxNat(NeedStmt(a), NeedBlock(rest))
  {
    assert ([a] + rest)[1..] == rest;
  }

  /** New names take the next slots; the last of them has the last slot. */
  lemma {:induction false} LetsCompile(n: nat, m: nat, s: Slots, base: nat) returns (f: Fragment)
    requires Proper(s) && ShorterNames(s, n)
    ensures CompileBlock(Lets(n, m), s, base) == Some(f) && |f.code| == 4 * m
    ensures f.slots.next == s.next + m && Grows(s, f.slots)
    ensures m > 0 ==> Has(f.slots, LongName(n + m), s.next + m - 1)
    ensures NeedBlock(Lets(n, m)) <= 1
    decreases m
  {
    if m == 0 { f := Fragment([], s); } else {
      var x, more := LongName(n + 1), Lets(n + 1, m - 1);
      var first := NewLet(x, s, base);
      var rest := LetsCompile(n + 1, m - 1, first.slots, base + 4);
      ConsCompiles(Let(x, AbsentExpr), more, s, base, first, rest);
      assert Lets(n, m) == [Let(x, AbsentExpr)] + more && NeedStmt(Let(x, AbsentExpr)) == 1;
      f := Fragment(first.code + rest.code, rest.slots);
      LastHas(n, m, x, s, first.slots, rest.slots);
    }
  }

  lemma LastHas(n: nat, m: nat, x: string, s: Slots, t: Slots, u: Slots)
    requires m > 0 && x == LongName(n + 1) && x !in s.of && t == Slots(s.of[x := s.next], s.next + 1) && Grows(t, u)
    requires m > 1 ==> Has(u, LongName(n + 1 + (m - 1)), t.next + (m - 1) - 1)
    ensures Grows(s, u) && Has(u, LongName(n + m), s.next + m - 1)
  {
    assert n + 1 + (m - 1) == n + m;
    assert Has(t, x, s.next);
  }

  /** The body `if 0 { let ..; ...; let x }; return x` with `m` new names, of which `x` is the last. */
  function ProbeBody(n: nat, m: nat): Stmt {
    Block([If(Number(0), Block(Lets(n, m)), AbsentStmt), Return(Identifier(LongName(n + m)))])
  }

  lemma TwoCompile(a: Stmt, b: Stmt, s: Slots, base: nat, f: Fragment, g: Fragment)
    requires CompileStmt(a, s, base) == Some(f) && CompileStmt(b, f.slots, base + |f.code|) == Some(g)
    ensures CompileBlock([a, b], s, base) == Some(Fragment(f.code + g.code, g.slots))
    ensures NeedBlock([a, b]) == MaxNat(NeedStmt(a), NeedStmt(b))
  {
    SingletonBlock(b, f.slots, base + |f.code|);
    NeedOfOne(b);
    ConsCompiles(a, [b], s, base, f, g);
    assert [a] + [b] == [a, b];
  }

  lemma DeadBranchCompiles(branch: Stmt, s: Slots, f: Fragment) returns (g: Fragment)
    requires !branch.AbsentStmt? && CompileNested(branch, s, 4) == Some(f)
    ensures CompileStmt(If(Number(0), branch, AbsentStmt), s, 0) == Some(g)
    ensures |g.code| == 4 + |f.code| && g.slots == f.slots
    ensures NeedStmt(If(Number(0), branch, AbsentStmt)) == MaxNat(1, NeedStmt(branch))
  {
    assert CompileExpr(Number(0), s) == Some([LOAD_CONST, 0]);
    g := Fragment([LOAD_CONST, 0] + [JUMP_IF_FALSE, 4 + |f.code|] + f.code, f.slots);
  }

  lemma ReturnName(x: string, s: Slots, base: nat)
    requires x in s.of && !IsLiteral(x)
    ensures CompileStmt(Return(Identifier(x)), s, base) == Some(Fragment([LOAD_LOCAL, s.of[x]] + [RETURN], s))
    ensures NeedStmt(Return(Identifier(x))) == 1
  {
    assert CompileOrZero(Identifier(x), s) == Some([LOAD_LOCAL, s.of[x]]);
  }

  lemma ProbeCompiles(n: nat, m: nat, s: Slots) returns (f: Fragment)
    requires Proper(s) && ShorterNames(s, n) && m > 0 && n >= 5
    ensures CompileStmt(ProbeBody(n, m), s, 0) == Some(f) && |f.code| == 4 * m + 7
    ensures f.slots.next == s.next + m && Has(f.slots, LongName(n + m), s.next + m - 1)
    ensures NeedStmt(ProbeBody(n, m)) <= STACK_SLOTS
  {
    var x, branch := LongName(n + m), Block(Lets(n, m));
    var lets := LetsCompile(n, m, s, 4);
    var first := DeadBranchCompiles(branch, s, lets);
    var last := Fragment([LOAD_LOCAL, s.next + m - 1] + [RETURN], lets.slots);
    ReturnName(x, lets.slots, |first.code|);
    TwoCompile(If(Number(0), branch, AbsentStmt), Return(Identifier(x)), s, 0, first, last);
    f := Fragment(first.code + last.code, lets.slots);
    BlockCompiles([If(Number(0), branch, AbsentStmt), Return(Identifier(x))], s, f);
  }

  lemma BlockCompiles(stmts: seq<Stmt>, s: Slots, f: Fragment)
    requires CompileBlock(stmts, s, 0) == Some(f)
    ensures CompileStmt(Block(stmts), s, 0) == Some(f) && NeedStmt(Block(stmts)) == NeedBlock(stmts)
  {}

  lemma ProbeMeans(n: nat, m: nat, env: Env, cap: int)
    requires n >= 5 && m > 0
    ensures Exec(ProbeBody(n, m), env, 0, cap) == Returned(Lookup(env, LongName(n + m)))
  {
    var x := LongName(n + m);
    var declare, use := If(Number(0), Block(Lets(n, m)), AbsentStmt), Return(Identifier(x));
    assert Exec(declare, env, 0, cap) == Normal(env, 0);
    assert [declare, use][1..] == [use];
    assert ExecBlock([use], env, 0, cap) == Returned(Lookup(env, x));
    assert ExecBlock([declare, use], env, 0, cap) == Returned(Lookup(env, x));
  }

  /** A surplus argument is read by a flow that declares enough locals and never assigns them. */
  lemma SurplusIsRead(params: seq<Param>, args: seq<int>, cap: int, s: Slots, n: nat, m: nat)
    requires DeclareParams(params, EMPTY_SLOTS) == Some(s) && Proper(s) && ShorterNames(s, n) && n >= 5 && m > 0
    requires (forall x :: IsParam(params, x) ==> x in s.of) && s.next + m <= I32_MAX && 4 * m + 10 <= I32_MAX
    ensures var flow := Flow(params, ProbeBody(n, m), false);
      && Runnable(flow)
      && var p := CompileFlow(flow).value;
      && Run(p.code, InitialState(p, args), cap) == Result(Word(ArgAt(args, s.next + m - 1)))
      && Answer(RunFlow(flow, args, cap)) == Result(Word(0))
  {
    var flow := Flow(params, ProbeBody(n, m), false);
    var f := ProbeCompiles(n, m, s);
    assert CompileWords(flow) == Some(Fragment(f.code + IMPLICIT_RETURN, f.slots));
    CompiledFlowIsCorrect(flow, args, cap);
    ProbeMeans(n, m, StartEnv(f.slots, args), cap);
    ProbeMeans(n, m, Bind(params, args), cap);
    UnboundIsZero(params, args, LongName(n + m));
  }

  lemma NameBound(s: Slots) returns (n: nat)
    ensures n >= 5 && ShorterNames(s, n)
  {
    n := LongestOf(s.of.Keys);
  }

  lemma {:induction false} LongestOf(names: set<string>) returns (n: nat)
    ensures n >= 5 && forall x :: x in names ==> |x| <= n
    decreases names
  {
    if names == {} { n := 5; } else {
      var x :| x in names;
      n := LongestOf(names - {x});
      if |x| > n { n := |x|; }
      forall y | y in names ensures |y| <= n { assert y == x || y in names - {x}; }
    }
  }

  lemma RightMeansZero(params: seq<Param>, args: seq<int>, cap: int, s: Slots, k: nat)
    requires DeclareParams(params, EMPTY_SLOTS) == Some(s) && Proper(s) && forall x :: IsParam(params, x) ==> x in s.of
    requires s.next <= k < |args| && k < I32_MAX && 4 * (k - s.next) + 14 <= I32_MAX && AllRight(params, args, cap)
    ensures ArgAt(args, k) == 0
  {
    var n := NameBound(s);
    var m := k - s.next + 1;
    SurplusIsRead(params, args, cap, s, n, m);
    assert RightOn(Flow(params, ProbeBody(n, m), false), args, cap);
  }

  /** On an argument list, all flows with these parameters that the machine can hold are right if and
      only if the arguments fit the parameters. */
  lemma FittingIsExact(params: seq<Param>, args: seq<int>, cap: int)
    requires DeclareParams(params, EMPTY_SLOTS).Some? && (forall x :: IsParam(params, x) ==> !IsLiteral(x))
    requires |params| + 4 * |args| + 14 <= I32_MAX
    ensures AllRight(params, args, cap) <==> ArgumentsFit(params, args)
  {
    var s := ParamTable(params);
    if ArgumentsFit(params, args) {
      forall flow: Flow | flow.params == params ensures RightOn(flow, args, cap) {
        if Runnable(flow) { FittingCallIsCorrect(flow, args, cap); }
      }
    }
    if AllRight(params, args, cap) {
      forall x | x in s.of ensures ArgAt(args, s.of[x]) == Lookup(Bind(params, args), x) {
        ParamIsRead(params, args, cap, s, x);
        assert RightOn(ReadingFlow(params, x), args, cap);
      }
      forall k | s.next <= k < |args| ensures ToInt32(args[k]) == 0 { RightMeansZero(params, args, cap, s, k); }
    }
  }

  /** With distinct parameters: if and only if every argument too many is a multiple of 2^32. */
  lemma SurplusIsExact(params: seq<Param>, args: seq<int>, cap: int)
    requires DeclareParams(params, EMPTY_SLOTS).Some? && (forall x :: IsParam(params, x) ==> !IsLiteral(x))
    requires |params| + 4 * |args| + 14 <= I32_MAX && DistinctParams(params)
    ensures AllRight(params, args, cap) <==> SurplusIsZero(|params|, args)
  {
    FittingIsExact(params, args, cap);
    DistinctParamsFit(params, args);
  }

  /** An argument too many lands in the slot of a local variable, which then does not start at zero. */
  lemma ExtraArgumentLeaks(a: int, cap: int)
    ensures var leak := Flow([], ProbeBody(5, 1), false);
      && Runnable(leak)
      && var p := CompileFlow(leak).value;
      && Run(p.code, InitialState(p, [a]), cap) == Result(Word(ToInt32(a)))
      && Answer(RunFlow(leak, [a], cap)) == Result(Word(0))
  {
    SurplusIsRead([], [a], cap, EMPTY_SLOTS, 5, 1);
  }

  /** A parameter named twice takes one slot, so the parameters after it read their neighbours' arguments. */
  lemma RepeatedNameShifts(a: int, b: int, c: int, cap: int)
    ensures var shifted := ReadingFlow([Param("a", "Int"), Param("a", "Int"), Param("b", "Int")], "b");
      && Runnable(shifted)
      && var p := CompileFlow(shifted).value;
      && Run(p.code, InitialState(p, [a, b, c]), cap) == Result(Word(ToInt32(b)))
      && Answer(RunFlow(shifted, [a, b, c], cap)) == Result(Word(ToInt32(c)))
  {
    var x, y := Param("a", "Int"), Param("b", "Int");
    var params, args := [x, x, y], [a, b, c];
    var s := Slots(map["a" := 0, "b" := 1], 2);
    assert params[1..] == [x, y] && [x, y][1..] == [y] && [y][1..] == [];
    assert args[1..] == [b, c] && [b, c][1..] == [c];
    assert DeclareParams([y], Slots(map["a" := 0], 1)) == Some(s);
    assert DeclareParams([x, y], Slots(map["a" := 0], 1)) == Some(s);
    assert DeclareParams(params, EMPTY_SLOTS) == Some(s);
    assert Lookup(Bind([y], [c]), "b") == ToInt32(c);
    assert Lookup(Bind([x, y], [b, c]), "b") == ToInt32(c);
    ParamIsRead(params, args, cap, s, "b");
  }

  // ----- The public entry -----

  const DEFAULT_MAX_ITERATIONS := 100_000

  /** Compile a pure flow and run it; no answer means the caller falls back to the tree walker. */
  method TryRunBytecode(flow: Flow, pure: bool, args: seq<int>) returns (r: Option<Outcome>)
    ensures r.Some? <==> pure && CompileFlow(flow).Some?
    ensures r.Some? ==> var p := CompileFlow(flow).value; r.value == Run(p.code, InitialState(p, args), 100_000)
    ensures r.Some? && Runnable(flow) && ArgumentsFit(flow.params, args) ==>
      r.value == Answer(RunFlow(flow, args, 100_000))
  {
    if !pure { return None; }
    var compiler := new Compiler();
    var p := compiler.Compile(flow);
    if p.None? { return None; }
    var outcome := RunBytecode(p.value, args, DEFAULT_MAX_ITERATIONS);
    if Runnable(flow) && ArgumentsFit(flow.params, args) {
      FittingCallIsCorrect(flow, args, DEFAULT_MAX_ITERATIONS);
    }
    return Some(outcome);
  }
}
