/** What each opcode of the machine does, by its number (`bytecode-vm.ts`, enum Op and runBytecode). */
module OpcodeMeaning {
  import BytecodeCompiler
  import opened I32Arith
  import opened FlowLanguage
  import opened BytecodeVm
  import opened OperatorMeaning

  /** The operator of a binary opcode. */
  const OPERATORS: map<int, Operator> := map[
    10 := Plus, 11 := Minus, 12 := Star, 13 := Slash, 14 := Percent,
    20 := Less, 21 := LessEq, 22 := Greater, 23 := GreaterEq, 24 := EqualEqual, 25 := BangEqual,
    30 := AmpAmp, 31 := BarBar]

  /** The machine is before an instruction, the word behind it is there too, and the stack pointer and the
      operands are within the stack. */
  ghost predicate Fetches(code: seq<Int32>, st: State, op: int, operands: nat) {
    0 <= st.pc < |code| - 1 && code[st.pc] == op && operands <= st.sp <= |st.stack|
  }

  /** The result of an operation replaces its operands, or its trap stops the machine. */
  ghost predicate Computes(step: StepResult, st: State, operands: nat, r: I32Result)
    requires 1 <= operands <= st.sp <= |st.stack|
  {
    match r
    case Value(v) =>
      var sp := st.sp - operands + 1;
      step == Continue(st.(pc := st.pc + 1, sp := sp, stack := st.stack[sp - 1 := v]))
    case Trap(kind) => step == Halt(Trapped(kind))
  }

  /** Loading and storing. */
  lemma MovesMean(code: seq<Int32>, st: State, cap: int)
    ensures Fetches(code, st, 1, 0) && st.sp < |st.stack| ==>
      Step(code, st, cap) == Continue(st.(pc := st.pc + 2, sp := st.sp + 1, stack := st.stack[st.sp := code[st.pc + 1]]))
    ensures Fetches(code, st, 2, 0) && st.sp < |st.stack| && 0 <= code[st.pc + 1] < |st.locals| ==>
      Step(code, st, cap) == Continue(st.(pc := st.pc + 2, sp := st.sp + 1, stack := st.stack[st.sp := st.locals[code[st.pc + 1]]]))
    ensures Fetches(code, st, 3, 1) && 0 <= code[st.pc + 1] < |st.locals| ==>
      Step(code, st, cap) == Continue(st.(pc := st.pc + 2, sp := st.sp - 1, locals := st.locals[code[st.pc + 1] := st.stack[st.sp - 1]]))
  {}

  /** Every binary opcode does what its operator means. */
  lemma BinaryMeansHere(code: seq<Int32>, st: State, cap: int, op: int)
    requires op in OPERATORS && Fetches(code, st, op, 2)
    ensures exists r :: BinaryMeans(OPERATORS[op], st.stack[st.sp - 2], st.stack[st.sp - 1], r) && Computes(Step(code, st, cap), st, 2, r)
  {
    var a, b := st.stack[st.sp - 2], st.stack[st.sp - 1];
    var r := ApplyBinary(OPERATORS[op], a, b);
    AppliedMeans(OPERATORS[op], a, b);
    assert Computes(Step(code, st, cap), st, 2, r);
  }

  ghost predicate Negates(step: StepResult, st: State)
    requires 1 <= st.sp <= |st.stack|
  {
    var operand: int := st.stack[st.sp - 1];
    exists r :: Strict(-operand, r) && Computes(step, st, 1, r)
  }

  /** The unary ones. */
  lemma UnaryMeansHere(code: seq<Int32>, st: State, cap: int)
    ensures Fetches(code, st, 32, 1) ==> Computes(Step(code, st, cap), st, 1, Value(if st.stack[st.sp - 1] == 0 then 1 else 0))
    ensures Fetches(code, st, 33, 1) ==> Negates(Step(code, st, cap), st)
  {
    if Fetches(code, st, 33, 1) {
      var operand: int := st.stack[st.sp - 1];
      var r := NegChecked(st.stack[st.sp - 1]);
      assert Strict(-operand, r);
      assert Computes(Step(code, st, cap), st, 1, r);
    }
  }

  /** A jump back is counted and stops the machine when there have been too many. */
  ghost predicate Lands(step: StepResult, st: State, target: int, here: int, cap: int) {
    if target >= here then step == Continue(st.(pc := target))
    else if st.backEdges + 1 <= cap then step == Continue(st.(pc := target, backEdges := st.backEdges + 1))
    else step == Halt(LoopCap)
  }

  lemma JumpsMean(code: seq<Int32>, st: State, cap: int)
    ensures Fetches(code, st, 40, 0) ==> Lands(Step(code, st, cap), st, code[st.pc + 1], st.pc + 1, cap)
    ensures Fetches(code, st, 41, 1) ==>
      var popped := st.(pc := st.pc + 2, sp := st.sp - 1);
      if st.stack[st.sp - 1] == 0 then Lands(Step(code, st, cap), popped, code[st.pc + 1], st.pc + 2, cap)
      else Step(code, st, cap) == Continue(popped)
  {}

  /** The top of the stack, or zero when there is none. */
  ghost function TopOf(st: State): Int32
    requires 0 <= st.sp <= |st.stack|
  {
    if st.sp > 0 then st.stack[st.sp - 1] else 0
  }

  /** Returning, halting, running off the end, and every other opcode, which stops the machine as unknown. */
  lemma EndsMean(code: seq<Int32>, st: State, cap: int)
    requires 0 <= st.sp <= |st.stack|
    ensures 0 <= st.pc < |code| && code[st.pc] == 60 && st.sp > 0 ==> Step(code, st, cap) == Halt(Result(Word(st.stack[st.sp - 1])))
    ensures 0 <= st.pc < |code| && code[st.pc] == 99 ==> Step(code, st, cap) == Halt(Result(Word(TopOf(st))))
    ensures st.pc >= |code| ==> Run(code, st, cap) == Result(Word(TopOf(st)))
    ensures 0 <= st.pc < |code| && code[st.pc] !in OPERATORS && code[st.pc] !in {1, 2, 3, 32, 33, 40, 41, 60, 99} ==>
      Step(code, st, cap) == Halt(UnknownOpcode)
  {
    if 0 <= st.pc < |code| {
      assert IsBinary(code[st.pc]) ==> code[st.pc] in OPERATORS;
    }
  }

  /** What a binary instruction computes when an operand lies outside the stack: identity compares with a
      missing value, the multiplication stops the machine, and everything else gives zero, a zero divisor
      apart. `a` and `b` are the operands that are there, at most one each. */
  lemma MissingOperands(op: int, a: seq<Int32>, b: seq<Int32>)
    requires op in OPERATORS && |a| <= 1 && |b| <= 1 && (a == [] || b == [])
    ensures var got := BinopWords(op, Read(a, 0), Read(b, 0));
      if op == 12 then got == Fault
      else if op == 24 then got == Push(if a == b then 1 else 0)
      else if op == 25 then got == Push(if a == b then 0 else 1)
      else if (op == 13 || op == 14) && b == [0] then got == Throw(DivisionByZero)
      else got == Push(0)
  {
    assert IsBinary(op);
  }

  /** Outside the stack, what is pushed is dropped, and what is stored is zero. */
  lemma OutsideTheStack(code: seq<Int32>, st: State, cap: int)
    requires 0 <= st.pc < |code| - 1
    ensures code[st.pc] == 1 && st.sp >= |st.stack| ==> Step(code, st, cap) == Continue(st.(pc := st.pc + 2, sp := st.sp + 1))
    ensures code[st.pc] == 3 && (st.sp <= 0 || st.sp > |st.stack|) && 0 <= code[st.pc + 1] < |st.locals| ==>
      Step(code, st, cap) == Continue(st.(pc := st.pc + 2, sp := st.sp - 1, locals := st.locals[code[st.pc + 1] := 0]))
  {}

  /** A run takes one step after the other. */
  lemma RunSteps(code: seq<Int32>, st: State, cap: int)
    requires st.pc < |code|
    ensures Step(code, st, cap).Halt? ==> Run(code, st, cap) == Step(code, st, cap).outcome
    ensures Step(code, st, cap).Continue? ==> Run(code, st, cap) == Run(code, Step(code, st, cap).state, cap)
  {}

  ghost predicate Reduced(x: int, r: Int32) {
    exists k: int :: x == r + k * 0x1_0000_0000
  }

  /** A run starts before the first word with an empty stack of 256 slots; each argument is in the slot of its
      position while there are slots, reduced to 32 bits, and the other slots hold zero. */
  lemma RunBegins(p: BytecodeCompiler.Program, args: seq<int>)
    ensures var st := InitialState(p, args);
      && st.pc == 0 && st.sp == 0 && st.backEdges == 0 && |st.stack| == 256 && |st.locals| == p.localCount
      && (forall i :: 0 <= i < |st.locals| && i < |args| ==> Reduced(args[i], st.locals[i]))
      && (forall i :: |args| <= i < |st.locals| ==> st.locals[i] == 0)
  {
    var st := InitialState(p, args);
    forall i | 0 <= i < |st.locals| && i < |args| ensures Reduced(args[i], st.locals[i]) {
      assert st.locals[i] == ToInt32(args[i]);
    }
  }
}
