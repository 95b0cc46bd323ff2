/** From a flow to a flat opcode stream (`bytecode-vm.ts`, class BytecodeCompiler).
    The functions say which stream a construct becomes; the class builds it the way the source does,
    by appending to one array and patching jump operands once the target is known. */
module BytecodeCompiler {
  import opened Options
  import opened I32Arith
  import opened FlowLanguage

  const LOAD_CONST := 1
  const LOAD_LOCAL := 2
  const STORE_LOCAL := 3
  const ADD := 10
  const SUB := 11
  const MUL := 12
  const DIV := 13
  const MOD := 14
  const LT := 20
  const LE := 21
  const GT := 22
  const GE := 23
  const EQ := 24
  const NE := 25
  const AND := 30
  const OR := 31
  const NOT := 32
  const NEG := 33
  const JUMP := 40
  const JUMP_IF_FALSE := 41
  const RETURN := 60
  const HALT := 99

  function BinopToOp(op: Operator): Option<int> {
    match op
    case Plus => Some(ADD)
    case Minus => Some(SUB)
    case Star => Some(MUL)
    case Slash => Some(DIV)
    case Percent => Some(MOD)
    case Less => Some(LT)
    case LessEq => Some(LE)
    case Greater => Some(GT)
    case GreaterEq => Some(GE)
    case EqualEqual => Some(EQ)
    case BangEqual => Some(NE)
    case AmpAmp => Some(AND)
    case BarBar => Some(OR)
    case AndWord => Some(AND)
    case OrWord => Some(OR)
    case _ => None
  }

  const INTEGER_TYPES: set<string> := {"Int", "Int8", "Int16", "Int32", "Bool", "Byte"}

  /** The slot table: `next` is the number of slots handed out so far. */
  datatype Slots = Slots(of: map<string, nat>, next: nat)

  const EMPTY_SLOTS := Slots(map[], 0)

  function SlotFor(name: string, s: Slots): (nat, Slots) {
    if name in s.of then (s.of[name], s) else (s.next, Slots(s.of[name := s.next], s.next + 1))
  }

  function CompileExpr(e: Expr, s: Slots): Option<seq<int>> {
    match e
    case Number(n) => if I32_MIN <= n <= I32_MAX then Some([LOAD_CONST, n]) else None
    case BoolLiteral(b) => Some([LOAD_CONST, if b then 1 else 0])
    case Identifier(name) =>
      if name == "true" then Some([LOAD_CONST, 1])
      else if name == "false" then Some([LOAD_CONST, 0])
      else if name in s.of then Some([LOAD_LOCAL, s.of[name]]) else None
    case Binary(op, l, r) =>
      if BinopToOp(op).None? then None else
      var a := CompileExpr(l, s);
      var b := CompileExpr(r, s);
      if a.None? || b.None? then None else Some(a.value + b.value + [BinopToOp(op).value])
    case Unary(op, x) =>
      var a := CompileExpr(x, s);
      if a.None? then None
      else if op.Minus? then Some(a.value + [NEG])
      else if op.Bang? then Some(a.value + [NOT]) else None
    case _ => None
  }

  function CompileOrZero(e: Expr, s: Slots): Option<seq<int>> {
    if e.AbsentExpr? then Some([LOAD_CONST, 0]) else CompileExpr(e, s)
  }

  /** The code of a statement placed at address `base`, and the slot table after it. */
  datatype Fragment = Fragment(code: seq<int>, slots: Slots)

  function CompileStore(name: string, e: Expr, s: Slots): Option<Fragment> {
    var a := CompileOrZero(e, s);
    if a.None? then None
    else
      var (slot, s') := SlotFor(name, s);
      Some(Fragment(a.value + [STORE_LOCAL, slot], s'))
  }

  function CompileStmt(stmt: Stmt, s: Slots, base: nat): Option<Fragment>
    decreases stmt, 1
  {
    match stmt
    case Let(name, init) => CompileStore(name, init, s)
    case Assign(name, value) => CompileStore(name, value, s)
    case Return(result) =>
      var a := CompileOrZero(result, s);
      if a.None? then None else Some(Fragment(a.value + [RETURN], s))
    case If(cond, thenBranch, elseBranch) =>
      var c := CompileExpr(cond, s);
      if c.None? then None else
      var thenBase := base + |c.value| + 2;
      var t := CompileNested(thenBranch, s, thenBase);
      if t.None? then None else
      if elseBranch.AbsentStmt? then
        Some(Fragment(c.value + [JUMP_IF_FALSE, thenBase + |t.value.code|] + t.value.code, t.value.slots))
      else
        var elseBase := thenBase + |t.value.code| + 2;
        var f := CompileNested(elseBranch, t.value.slots, elseBase);
        if f.None? then None else
        Some(Fragment(
          c.value + [JUMP_IF_FALSE, elseBase] + t.value.code
          + [JUMP, elseBase + |f.value.code|] + f.value.code, f.value.slots))
    case While(guard, body) =>
      var c := CompileExpr(guard, s);
      if c.None? then None else
      var bodyBase := base + |c.value| + 2;
      var b := CompileNested(body, s, bodyBase);
      if b.None? then None else
      Some(Fragment(
        c.value + [JUMP_IF_FALSE, bodyBase + |b.value.code| + 2] + b.value.code + [JUMP, base],
        b.value.slots))
    case Block(stmts) => CompileBlock(stmts, s, base)
    case _ => None
  }

  /** A branch or loop body that is not there compiles to nothing. */
  function CompileNested(stmt: Stmt, s: Slots, base: nat): Option<Fragment>
    decreases stmt, 2
  {
    if stmt.AbsentStmt? then Some(Fragment([], s)) else CompileStmt(stmt, s, base)
  }

  function CompileBlock(stmts: seq<Stmt>, s: Slots, base: nat): Option<Fragment>
    decreases stmts, 0
  {
    if stmts == [] then Some(Fragment([], s))
    else
      var a := CompileStmt(stmts[0], s, base);
      if a.None? then None else
      var b := CompileBlock(stmts[1..], a.value.slots, base + |a.value.code|);
      if b.None? then None else Some(Fragment(a.value.code + b.value.code, b.value.slots))
  }

  function DeclareParams(params: seq<Param>, s: Slots): Option<Slots> {
    if params == [] then Some(s)
    else if params[0].declType !in INTEGER_TYPES then None
    else DeclareParams(params[1..], SlotFor(params[0].name, s).1)
  }

  datatype Program = Program(code: seq<Int32>, localCount: nat, paramNames: seq<string>)

  /** `Int32Array.from`: every word is taken modulo 2^32. */
  function Int32ArrayFrom(words: seq<int>): (r: seq<Int32>)
    ensures |r| == |words|
  {
    seq(|words|, i requires 0 <= i < |words| => ToInt32(words[i]))
  }

  const IMPLICIT_RETURN := [LOAD_CONST, 0, RETURN]

  /** The words of a whole flow before they are narrowed to 32 bits, and the final slot table. */
  function CompileWords(flow: Flow): Option<Fragment> {
    if flow.declares64 then None else
    var p := DeclareParams(flow.params, EMPTY_SLOTS);
    if p.None? || !flow.body.Block? then None else
    var b := CompileStmt(flow.body, p.value, 0);
    if b.None? then None else Some(Fragment(b.value.code + IMPLICIT_RETURN, b.value.slots))
  }

  function ParamNames(params: seq<Param>): seq<string> {
    seq(|params|, i requires 0 <= i < |params| => params[i].name)
  }

  function CompileFlow(flow: Flow): Option<Program> {
    var w := CompileWords(flow);
    if w.None? then None
    else Some(Program(Int32ArrayFrom(w.value.code), w.value.slots.next, ParamNames(flow.params)))
  }

  /** Patching one operand replaces that word and nothing around it. */
  lemma PatchWord(left: seq<int>, was: int, right: seq<int>, now: int)
    ensures (left + [was] + right)[|left| := now] == left + [now] + right
  {}

  /** The two patches of a two-armed conditional leave exactly the code with both targets in place. */
  lemma ElsePatched(before: seq<int>, c: seq<int>, t: seq<int>, f: seq<int>)
    ensures
      var elseAddr := |before| + |c| + 1;
      var elseBase := elseAddr + 1 + |t| + 2;
      var w := (before + (c + [JUMP_IF_FALSE, 0] + t) + [JUMP] + [0])[elseAddr := elseBase] + f;
      w[elseBase - 1 := |w|]
      == before + (c + [JUMP_IF_FALSE, elseBase] + t + [JUMP, elseBase + |f|] + f)
  {
    var left := before + c + [JUMP_IF_FALSE];
    var right := t + [JUMP, 0];
    var elseBase := |left| + 1 + |t| + 2;
    assert before + (c + [JUMP_IF_FALSE, 0] + t) + [JUMP] + [0] == left + [0] + right;
    PatchWord(left, 0, right, elseBase);
    var head := left + [elseBase] + t + [JUMP];
    assert left + [elseBase] + right + f == head + [0] + f;
    PatchWord(head, 0, f, elseBase + |f|);
  }

  class Compiler {
    var code: seq<int>
    var slots: map<string, nat>
    var nextSlot: nat

    constructor ()
      ensures code == [] && Table() == EMPTY_SLOTS
    {
      code, slots, nextSlot := [], map[], 0;
    }

    function Table(): Slots
      reads this
    {
      Slots(slots, nextSlot)
    }

    method AllocateSlot(name: string) returns (slot: nat)
      modifies this
      ensures code == old(code)
      ensures (slot, Table()) == SlotFor(name, old(Table()))
    {
      if name in slots {
        slot := slots[name];
      } else {
        slot := nextSlot;
        nextSlot := nextSlot + 1;
        slots := slots[name := slot];
      }
    }

    method EmitExpr(e: Expr) returns (ok: bool)
      modifies this
      ensures Table() == old(Table())
      ensures ok == CompileExpr(e, old(Table())).Some?
      ensures ok ==> code == old(code) + CompileExpr(e, old(Table())).value
      decreases e
    {
      match e {
        case Number(n) =>
          if n > I32_MAX || n < I32_MIN { return false; }
          code := code + [LOAD_CONST, n];
        case BoolLiteral(b) =>
          code := code + [LOAD_CONST, if b then 1 else 0];
        case Identifier(name) =>
          if name == "true" {
            code := code + [LOAD_CONST, 1];
          } else if name == "false" {
            code := code + [LOAD_CONST, 0];
          } else {
            if name !in slots { return false; }
            code := code + [LOAD_LOCAL, slots[name]];
          }
        case Binary(op, l, r) =>
          if BinopToOp(op).None? { return false; }
          var left := EmitExpr(l);
          if !left { return false; }
          var right := EmitExpr(r);
          if !right { return false; }
          code := code + [BinopToOp(op).value];
        case Unary(op, x) =>
          var operand := EmitExpr(x);
          if !operand { return false; }
          if op.Minus? {
            code := code + [NEG];
          } else if op.Bang? {
            code := code + [NOT];
          } else {
            return false;
          }
        case _ =>
          return false;
      }
      return true;
    }

    method EmitExprOrZero(e: Expr) returns (ok: bool)
      modifies this
      ensures Table() == old(Table())
      ensures ok == CompileOrZero(e, old(Table())).Some?
      ensures ok ==> code == old(code) + CompileOrZero(e, old(Table())).value
    {
      if e.AbsentExpr? {
        code := code + [LOAD_CONST, 0];
        return true;
      }
      ok := EmitExpr(e);
    }

    method EmitStore(name: string, e: Expr) returns (ok: bool)
      modifies this
      ensures ok == CompileStore(name, e, old(Table())).Some?
      ensures ok ==> Extends(old(code), CompileStore(name, e, old(Table())).value)
    {
      ok := EmitExprOrZero(e);
      if ok {
        var slot := AllocateSlot(name);
        code := code + [STORE_LOCAL, slot];
      }
    }

    /** The state is the old code followed by the fragment, with the fragment's slot table. */
    ghost predicate Extends(before: seq<int>, f: Fragment)
      reads this
    {
      code == before + f.code && Table() == f.slots
    }

    method EmitStmt(stmt: Stmt) returns (ok: bool)
      modifies this
      ensures ok == CompileStmt(stmt, old(Table()), |old(code)|).Some?
      ensures ok ==> Extends(old(code), CompileStmt(stmt, old(Table()), |old(code)|).value)
      decreases stmt, 1
    {
      match stmt {
        case Let(name, init) =>
          ok := EmitStore(name, init);
        case Assign(name, value) =>
          ok := EmitStore(name, value);
        case Return(result) =>
          ok := EmitExprOrZero(result);
          code := code + [RETURN];
        case If(_, _, _) =>
          ok := EmitIf(stmt);
        case While(_, _) =>
          ok := EmitWhile(stmt);
        case Block(stmts) =>
          ok := EmitBlock(stmts);
        case _ =>
          ok := false;
      }
    }

    method EmitIf(stmt: Stmt) returns (ok: bool)
      requires stmt.If?
      modifies this
      ensures ok == CompileStmt(stmt, old(Table()), |old(code)|).Some?
      ensures ok ==> Extends(old(code), CompileStmt(stmt, old(Table()), |old(code)|).value)
      decreases stmt, 0
    {
      ghost var before := code;
      ok := EmitExpr(stmt.cond);
      if !ok { return; }
      ghost var c := CompileExpr(stmt.cond, old(Table())).value;
      code := code + [JUMP_IF_FALSE];
      var elseJumpAddr := |code|;
      code := code + [0];
      ok := EmitNested(stmt.thenBranch);
      if !ok { return; }
      ghost var t := CompileNested(stmt.thenBranch, old(Table()), |before| + |c| + 2).value.code;
      assert code == before + (c + [JUMP_IF_FALSE, 0] + t);
      if stmt.elseBranch.AbsentStmt? {
        code := code[elseJumpAddr := |code|];
        assert code == before + (c + [JUMP_IF_FALSE, |code|] + t);
      } else {
        ok := EmitElse(stmt.elseBranch, elseJumpAddr, before, c, t);
      }
    }

    /** The rest of a two-armed conditional: jump over the else part, and patch both operands. */
    method EmitElse(elseBranch: Stmt, elseJumpAddr: nat,
                    ghost before: seq<int>, ghost c: seq<int>, ghost t: seq<int>)
      returns (ok: bool)
      requires code == before + (c + [JUMP_IF_FALSE, 0] + t) && elseJumpAddr == |before| + |c| + 1
      modifies this
      ensures ok == CompileNested(elseBranch, old(Table()), |old(code)| + 2).Some?
      ensures ok ==>
        var f := CompileNested(elseBranch, old(Table()), |old(code)| + 2).value;
        code == before + (c + [JUMP_IF_FALSE, |old(code)| + 2] + t + [JUMP, |old(code)| + 2 + |f.code|] + f.code)
        && Table() == f.slots
      decreases elseBranch, 3
    {
      code := code + [JUMP];
      var endJumpAddr := |code|;
      code := code + [0];
      code := code[elseJumpAddr := |code|];
      ok := EmitNested(elseBranch);
      if !ok { return; }
      code := code[endJumpAddr := |code|];
      ElsePatched(before, c, t, CompileNested(elseBranch, old(Table()), |old(code)| + 2).value.code);
    }

    method EmitWhile(stmt: Stmt) returns (ok: bool)
      requires stmt.While?
      modifies this
      ensures ok == CompileStmt(stmt, old(Table()), |old(code)|).Some?
      ensures ok ==> Extends(old(code), CompileStmt(stmt, old(Table()), |old(code)|).value)
      decreases stmt, 0
    {
      ghost var before := code;
      var loopStart := |code|;
      ok := EmitExpr(stmt.guard);
      if !ok { return; }
      ghost var c := CompileExpr(stmt.guard, old(Table())).value;
      code := code + [JUMP_IF_FALSE];
      var endJumpAddr := |code|;
      code := code + [0];
      ok := EmitNested(stmt.body);
      if !ok { return; }
      ghost var b := code[endJumpAddr + 1..];
      code := code + [JUMP, loopStart];
      assert code == before + (c + [JUMP_IF_FALSE, 0] + b + [JUMP, loopStart]);
      code := code[endJumpAddr := |code|];
      assert code == before + (c + [JUMP_IF_FALSE, |code|] + b + [JUMP, loopStart]);
    }

    method EmitNested(stmt: Stmt) returns (ok: bool)
      modifies this
      ensures ok == CompileNested(stmt, old(Table()), |old(code)|).Some?
      ensures ok ==> Extends(old(code), CompileNested(stmt, old(Table()), |old(code)|).value)
      decreases stmt, 2
    {
      if stmt.AbsentStmt? { return true; }
      ok := EmitStmt(stmt);
    }

    method EmitBlock(stmts: seq<Stmt>) returns (ok: bool)
      modifies this
      ensures ok == CompileBlock(stmts, old(Table()), |old(code)|).Some?
      ensures ok ==> Extends(old(code), CompileBlock(stmts, old(Table()), |old(code)|).value)
      decreases stmts, 0
    {
      ghost var whole := CompileBlock(stmts, Table(), |code|);
      ghost var before := code;
      for i := 0 to |stmts|
        invariant var rest := CompileBlock(stmts[i..], Table(), |code|);
          rest.Some? == whole.Some? &&
          (rest.Some? ==> code + rest.value.code == before + whole.value.code && rest.value.slots == whole.value.slots)
      {
        assert stmts[i..][0] == stmts[i] && stmts[i..][1..] == stmts[i + 1..];
        ok := EmitStmt(stmts[i]);
        if !ok { return; }
      }
      ok := true;
    }

    method Compile(flow: Flow) returns (r: Option<Program>)
      requires code == [] && Table() == EMPTY_SLOTS
      modifies this
      ensures r == CompileFlow(flow)
    {
      if flow.declares64 { return None; }
      var paramNames: seq<string> := [];
      for i := 0 to |flow.params|
        invariant code == []
        invariant paramNames == ParamNames(flow.params)[..i]
        invariant DeclareParams(flow.params[i..], Table()) == DeclareParams(flow.params, EMPTY_SLOTS)
      {
        var p := flow.params[i];
        assert flow.params[i..][0] == p && flow.params[i..][1..] == flow.params[i + 1..];
        if p.declType !in INTEGER_TYPES { return None; }
        paramNames := paramNames + [p.name];
        var _ := AllocateSlot(p.name);
      }
      if !flow.body.Block? { return None; }
      assert flow.params[|flow.params|..] == [];
      var ok := EmitBlock(flow.body.stmts);
      if !ok { return None; }
      code := code + [LOAD_CONST, 0, RETURN];
      assert code == CompileWords(flow).value.code;
      assert paramNames == ParamNames(flow.params);
      return Some(Program(Int32ArrayFrom(code), nextSlot, paramNames));
    }
  }
}
