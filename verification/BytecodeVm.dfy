/** The stack machine that runs compiled flows (`bytecode-vm.ts`, runBytecode).
    It is total: `Step` says what happens on any word stream, compiled or not. */
module BytecodeVm {
  import opened Options
  import opened I32Arith
  import opened FlowLanguage
  import opened BytecodeCompiler

  const STACK_SLOTS := 256

  /** What reading a typed array yields: a stored word, or `undefined` outside its bounds. */
  datatype Word = Undefined | Word(v: Int32)

  datatype State = State(pc: int, sp: int, stack: seq<Int32>, locals: seq<Int32>, backEdges: nat)

  datatype Outcome =
    | Result(word: Word)
    | Trapped(kind: TrapKind)
    | LoopCap
    | UnknownOpcode
    | TypeFault

  datatype StepResult = Continue(state: State) | Halt(outcome: Outcome)

  function Read(a: seq<Int32>, i: int): Word {
    if 0 <= i < |a| then Word(a[i]) else Undefined
  }

  /** A write outside a typed array is dropped. */
  function Write(a: seq<Int32>, i: int, v: Int32): (r: seq<Int32>)
    ensures |r| == |a|
  {
    if 0 <= i < |a| then a[i := v] else a
  }

  /** Storing `undefined` into an Int32Array stores zero. */
  function Coerce(w: Word): Int32 {
    if w.Undefined? then 0 else w.v
  }

  predicate IsBinary(op: int) {
    10 <= op <= 14 || 20 <= op <= 25 || op == AND || op == OR
  }

  datatype Computed = Push(v: Int32) | Throw(kind: TrapKind) | Fault

  function FromI32(r: I32Result): Computed {
    if r.Trap? then Throw(r.kind) else Push(r.v)
  }

  function Binop(op: int, a: Int32, b: Int32): Computed
    requires IsBinary(op)
  {
    if op == ADD then FromI32(AddChecked(a, b))
    else if op == SUB then FromI32(SubChecked(a, b))
    else if op == MUL then FromI32(MulChecked(a, b))
    else if op == DIV then FromI32(DivChecked(a, b))
    else if op == MOD then FromI32(ModChecked(a, b))
    else if op == LT then Push(Truth(a < b))
    else if op == LE then Push(Truth(a <= b))
    else if op == GT then Push(Truth(a > b))
    else if op == GE then Push(Truth(a >= b))
    else if op == EQ then Push(Truth(a == b))
    else if op == NE then Push(Truth(a != b))
    else if op == AND then Push(Min(a, b))
    else Push(Max(a, b))
  }

  /** With an `undefined` operand, arithmetic computes NaN, which is stored as zero; a zero divisor
      still traps; the multiply's BigInt conversion throws; only identity can hold. */
  function BinopUndefined(op: int, a: Word, b: Word): Computed
    requires IsBinary(op)
    requires a.Undefined? || b.Undefined?
  {
    if op == MUL then Fault
    else if (op == DIV || op == MOD) && b == Word(0) then Throw(DivisionByZero)
    else if op == EQ then Push(Truth(a == b))
    else if op == NE then Push(Truth(a != b))
    else Push(0)
  }

  function BinopWords(op: int, a: Word, b: Word): Computed
    requires IsBinary(op)
  {
    if a.Word? && b.Word? then Binop(op, a.v, b.v) else BinopUndefined(op, a, b)
  }

  /** Replace the top of the stack by a computed value, or stop. */
  function Settle(c: Computed, st: State): StepResult {
    match c
    case Push(v) => Continue(st.(stack := Write(st.stack, st.sp - 1, v)))
    case Throw(kind) => Halt(Trapped(kind))
    case Fault => Halt(TypeFault)
  }

  function Top(st: State): Word {
    if st.sp > 0 then Read(st.stack, st.sp - 1) else Word(0)
  }

  /** Take a jump whose operand was read with the program counter at `here`: a target before it is a
      back-edge and is counted against the cap. */
  function Jump(target: Word, here: int, st: State, cap: int): StepResult {
    if target.Undefined? then Halt(Result(Top(st)))
    else if target.v < here then
      if st.backEdges + 1 > cap then Halt(LoopCap)
      else Continue(st.(pc := target.v, backEdges := st.backEdges + 1))
    else Continue(st.(pc := target.v))
  }

  /** One turn of the loop, for a state whose `pc` is before the end of the code. */
  function Step(code: seq<Int32>, st: State, cap: int): StepResult {
    var op := Read(code, st.pc);
    var arg := Read(code, st.pc + 1);
    if op.Undefined? then Halt(UnknownOpcode)
    else if op.v == LOAD_CONST then
      Continue(st.(pc := st.pc + 2, sp := st.sp + 1, stack := Write(st.stack, st.sp, Coerce(arg))))
    else if op.v == LOAD_LOCAL then
      var w := if arg.Undefined? then Undefined else Read(st.locals, arg.v);
      Continue(st.(pc := st.pc + 2, sp := st.sp + 1, stack := Write(st.stack, st.sp, Coerce(w))))
    else if op.v == STORE_LOCAL then
      var v := Coerce(Read(st.stack, st.sp - 1));
      var locals := if arg.Undefined? then st.locals else Write(st.locals, arg.v, v);
      Continue(st.(pc := st.pc + 2, sp := st.sp - 1, locals := locals))
    else if IsBinary(op.v) then
      var popped := st.(pc := st.pc + 1, sp := st.sp - 1);
      Settle(BinopWords(op.v, Read(st.stack, st.sp - 2), Read(st.stack, st.sp - 1)), popped)
    else if op.v == NOT then
      Settle(Push(Truth(Read(st.stack, st.sp - 1) == Word(0))), st.(pc := st.pc + 1))
    else if op.v == NEG then
      var w := Read(st.stack, st.sp - 1);
      Settle(if w.Undefined? then Push(0) else FromI32(NegChecked(w.v)), st.(pc := st.pc + 1))
    else if op.v == JUMP then
      Jump(arg, st.pc + 1, st, cap)
    else if op.v == JUMP_IF_FALSE then
      var popped := st.(pc := st.pc + 2, sp := st.sp - 1);
      if Read(st.stack, st.sp - 1) == Word(0) then Jump(arg, st.pc + 2, popped, cap) else Continue(popped)
    else if op.v == RETURN then Halt(Result(Read(st.stack, st.sp - 1)))
    else if op.v == HALT then Halt(Result(Top(st)))
    else Halt(UnknownOpcode)
  }

  /** Every step either moves the program counter forward or spends one of the allowed back-edges. */
  lemma StepProgress(code: seq<Int32>, st: State, cap: int)
    ensures match Step(code, st, cap)
      case Halt(_) => true
      case Continue(st') =>
        && (|| (st'.backEdges == st.backEdges && st'.pc > st.pc)
            || (st'.backEdges == st.backEdges + 1 <= cap))
        && |st'.stack| == |st.stack| && |st'.locals| == |st.locals|
  {}

  /** Running to completion. The measure is the remaining back-edge budget, then the distance to the
      end of the code, so every code array stops. */
  function Run(code: seq<Int32>, st: State, cap: int): Outcome
    decreases Remaining(st.backEdges, cap), |code| - st.pc
  {
    if st.pc >= |code| then Result(Top(st))
    else
      match Step(code, st, cap)
      case Halt(outcome) => outcome
      case Continue(st') => StepProgress(code, st, cap); Run(code, st', cap)
  }

  /** The number of turns the loop takes. */
  function Turns(code: seq<Int32>, st: State, cap: int): nat
    decreases Remaining(st.backEdges, cap), |code| - st.pc
  {
    if st.pc >= |code| then 0
    else
      match Step(code, st, cap)
      case Halt(_) => 1
      case Continue(st') => StepProgress(code, st, cap); 1 + Turns(code, st', cap)
  }

  /** Turns left before the code runs out; a negative counter fails on its next fetch. */
  function Ahead(code: seq<Int32>, pc: int): nat {
    if pc < 0 then 1 else if pc >= |code| then 0 else |code| - pc
  }

  /** On any code at all, the machine stops within (back-edge budget + 1) * (code length + 1) turns. */
  lemma {:induction false} TurnsBound(code: seq<Int32>, st: State, cap: int)
    ensures Turns(code, st, cap) <= Remaining(st.backEdges, cap) * (|code| + 1) + Ahead(code, st.pc)
    decreases Remaining(st.backEdges, cap), |code| - st.pc
  {
    if st.pc < |code| && Step(code, st, cap).Continue? {
      var st' := Step(code, st, cap).state;
      StepProgress(code, st, cap);
      TurnsBound(code, st', cap);
      assert st.pc >= 0;
      if st'.backEdges != st.backEdges {
        assert Remaining(st.backEdges, cap) == Remaining(st'.backEdges, cap) + 1;
        assert (Remaining(st'.backEdges, cap) + 1) * (|code| + 1)
            == Remaining(st'.backEdges, cap) * (|code| + 1) + (|code| + 1);
      }
    }
  }

  /** Arguments fill the local slots by position, as far as both go; the other slots are zero. */
  function InitialLocals(localCount: nat, args: seq<int>): (r: seq<Int32>)
    ensures |r| == localCount
  {
    seq(localCount, i requires 0 <= i < localCount => if i < |args| then ToInt32(args[i]) else 0)
  }

  function InitialState(p: Program, args: seq<int>): State {
    State(0, 0, seq(STACK_SLOTS, _ => 0), InitialLocals(p.localCount, args), 0)
  }

  lemma TurnsOfProgram(p: Program, args: seq<int>, cap: int)
    ensures Turns(p.code, InitialState(p, args), cap) <= (Remaining(0, cap) + 1) * (|p.code| + 1)
  {
    TurnsBound(p.code, InitialState(p, args), cap);
    assert (Remaining(0, cap) + 1) * (|p.code| + 1) == Remaining(0, cap) * (|p.code| + 1) + (|p.code| + 1);
  }

  method ReadWord(a: array<Int32>, i: int) returns (w: Word)
    ensures w == Read(a[..], i)
  {
    w := if 0 <= i < a.Length then Word(a[i]) else Undefined;
  }

  method WriteWord(a: array<Int32>, i: int, v: Int32)
    modifies a
    ensures a[..] == Write(old(a[..]), i, v)
  {
    if 0 <= i < a.Length {
      a[i] := v;
    }
  }

  /** The registers and the two typed arrays of one run. */
  class Machine {
    const code: seq<Int32>
    const maxIterations: int
    const stack: array<Int32>
    const locals: array<Int32>
    var pc: int
    var sp: int
    var backEdges: nat

    ghost predicate Valid()
      reads this
    {
      stack != locals
    }

    ghost function Snapshot(): State
      reads this, stack, locals
    {
      State(pc, sp, stack[..], locals[..], backEdges)
    }

    constructor (p: Program, args: seq<int>, cap: int)
      ensures Valid() && fresh(stack) && fresh(locals)
      ensures code == p.code && maxIterations == cap
      ensures Snapshot() == InitialState(p, args)
    {
      code, maxIterations := p.code, cap;
      stack := new Int32[STACK_SLOTS](_ => 0);
      locals := new Int32[p.localCount](_ => 0);
      pc, sp, backEdges := 0, 0, 0;
      new;
      var i := 0;
      while i < |args| && i < locals.Length
        invariant 0 <= i <= |args| && i <= locals.Length
        invariant forall j :: 0 <= j < i ==> locals[j] == ToInt32(args[j])
        invariant forall j :: i <= j < locals.Length ==> locals[j] == 0
        invariant stack[..] == seq(STACK_SLOTS, _ => 0)
        invariant pc == sp == backEdges == 0
      {
        locals[i] := ToInt32(args[i]);
        i := i + 1;
      }
      assert locals[..] == InitialLocals(p.localCount, args);
    }

    method Push(w: Word)
      requires Valid()
      modifies this`sp, stack
      ensures sp == old(sp) + 1
      ensures stack[..] == Write(old(stack[..]), old(sp), Coerce(w))
    {
      WriteWord(stack, sp, Coerce(w));
      sp := sp + 1;
    }

    method Pop() returns (w: Word)
      modifies this`sp
      ensures sp == old(sp) - 1
      ensures w == Read(stack[..], old(sp) - 1)
    {
      sp := sp - 1;
      w := ReadWord(stack, sp);
    }

    /** Store a computed value on the top of the stack, or report why the run stops. */
    method Replace(c: Computed) returns (stop: Option<Outcome>)
      requires Valid()
      modifies stack
      ensures c.Push? ==> stop == None && stack[..] == Write(old(stack[..]), sp - 1, c.v)
      ensures c.Throw? ==> stop == Some(Trapped(c.kind))
      ensures c.Fault? ==> stop == Some(TypeFault)
    {
      match c {
        case Push(v) => WriteWord(stack, sp - 1, v); return None;
        case Throw(kind) => return Some(Trapped(kind));
        case Fault => return Some(TypeFault);
      }
    }

    method TopOrZero() returns (w: Word)
      ensures w == Top(Snapshot())
    {
      if sp > 0 { w := ReadWord(stack, sp - 1); } else { w := Word(0); }
    }

    /** Go to `target`, counting a backward jump against the cap. */
    method Branch(target: Word) returns (stop: Option<Outcome>)
      requires Valid()
      modifies this`pc, this`backEdges
      ensures match Jump(target, old(pc), old(Snapshot()), maxIterations)
        case Halt(outcome) => stop == Some(outcome)
        case Continue(st) => stop == None && Snapshot() == st
    {
      if target.Undefined? {
        var w := TopOrZero();
        return Some(Result(w));
      }
      if target.v < pc {
        backEdges := backEdges + 1;
        if backEdges > maxIterations { return Some(LoopCap); }
      }
      pc := target.v;
      return None;
    }

    /** The state is what one step from `before` leads to, or the step stopped the run. */
    ghost predicate Stepped(before: State, stop: Option<Outcome>)
      reads this, stack, locals
    {
      match Step(code, before, maxIterations)
      case Halt(outcome) => stop == Some(outcome)
      case Continue(st) => stop == None && Snapshot() == st
    }

    method Move(op: Int32)
      requires Valid() && Read(code, pc) == Word(op)
      requires op == LOAD_CONST || op == LOAD_LOCAL || op == STORE_LOCAL
      modifies this`pc, this`sp, stack, locals
      ensures Stepped(old(Snapshot()), None)
    {
      var arg := Read(code, pc + 1);
      pc := pc + 2;
      if op == LOAD_CONST {
        Push(arg);
      } else if op == LOAD_LOCAL {
        var w := Undefined;
        if arg.Word? { w := ReadWord(locals, arg.v); }
        Push(w);
      } else {
        var w := Pop();
        if arg.Word? { WriteWord(locals, arg.v, Coerce(w)); }
      }
    }

    method Compute(op: Int32) returns (stop: Option<Outcome>)
      requires Valid() && Read(code, pc) == Word(op)
      requires IsBinary(op) || op == NOT || op == NEG
      modifies this`pc, this`sp, stack
      ensures Stepped(old(Snapshot()), stop)
    {
      pc := pc + 1;
      if IsBinary(op) {
        var b := Pop();
        var a := ReadWord(stack, sp - 1);
        stop := Replace(BinopWords(op, a, b));
      } else if op == NOT {
        var a := ReadWord(stack, sp - 1);
        stop := Replace(Computed.Push(Truth(a == Word(0))));
      } else {
        var a := ReadWord(stack, sp - 1);
        stop := Replace(if a.Undefined? then Computed.Push(0) else FromI32(NegChecked(a.v)));
      }
    }

    method Transfer(op: Int32) returns (stop: Option<Outcome>)
      requires Valid() && Read(code, pc) == Word(op)
      requires op == JUMP || op == JUMP_IF_FALSE || op == RETURN || op == HALT
      modifies this
      ensures Stepped(old(Snapshot()), stop)
    {
      var arg := Read(code, pc + 1);
      pc := pc + 1;
      if op == JUMP {
        stop := Branch(arg);
      } else if op == JUMP_IF_FALSE {
        pc := pc + 1;
        var w := Pop();
        stop := None;
        if w == Word(0) { stop := Branch(arg); }
      } else if op == RETURN {
        var w := Pop();
        stop := Some(Result(w));
      } else {
        var w := TopOrZero();
        stop := Some(Result(w));
      }
    }

    /** One turn of the dispatch loop. */
    method Turn() returns (stop: Option<Outcome>)
      requires Valid()
      modifies this, stack, locals
      ensures Valid()
      ensures Stepped(old(Snapshot()), stop)
    {
      var op := Read(code, pc);
      if op.Undefined? {
        stop := Some(UnknownOpcode);
      } else if op.v == LOAD_CONST || op.v == LOAD_LOCAL || op.v == STORE_LOCAL {
        Move(op.v);
        stop := None;
      } else if IsBinary(op.v) || op.v == NOT || op.v == NEG {
        stop := Compute(op.v);
      } else if op.v == JUMP || op.v == JUMP_IF_FALSE || op.v == RETURN || op.v == HALT {
        stop := Transfer(op.v);
      } else {
        stop := Some(UnknownOpcode);
      }
    }
  }

  method RunBytecode(p: Program, args: seq<int>, maxIterations: int) returns (outcome: Outcome)
    ensures outcome == Run(p.code, InitialState(p, args), maxIterations)
  {
    var m := new Machine(p, args, maxIterations);
    while m.pc < |m.code|
      invariant m.Valid() && fresh(m) && fresh(m.stack) && fresh(m.locals)
      invariant m.code == p.code && m.maxIterations == maxIterations
      invariant Run(p.code, m.Snapshot(), maxIterations) == Run(p.code, InitialState(p, args), maxIterations)
      decreases Remaining(m.backEdges, maxIterations), |p.code| - m.pc
    {
      StepProgress(p.code, m.Snapshot(), maxIterations);
      var stop := m.Turn();
      if stop.Some? { return stop.value; }
    }
    var w := m.TopOrZero();
    return Result(w);
  }
}
