# Galerina compiler: verified models

Dafny models of the parts of the Galerina core compiler whose correctness is not visible from one function
body, with proofs that hold for all inputs, all runs and all graphs.

- **Bytecode tier** (`I32Arith`, `FlowLanguage`, `BytecodeCompiler`, `BytecodeVm`, `CompilerCorrectness`,
  `CompiledFlows`, `CompiledCalls`, `OperatorMeaning`, `OpcodeMeaning`, `AcceptedFlows`, `JumpTargets`). A compiler
  that appends opcodes to a buffer and patches jumps, a stack machine over fixed arrays, and a reference evaluator
  with one flat environment and one global loop budget. Main result: for every accepted flow with a stack need of at
  most 256 the compiled run and the evaluator have the same outcome.
- **Gate graphs** (`CodeUnitOrder`, `Reachability`, `GateGraph`, `CircuitGraph`, `GraphMeaning`, `TarjanInvariant`,
  `Condense`, `DepthFirst`, `DominatorTree`, `Dominators`, `Separation`, `Budget`, `BudgetRule`). The canonical graph
  of a circuit, the iterative component search, dominators as a fixpoint, cut separation and containment of refused
  decisions, and longest paths by stripping nodes. Each loop is proved to terminate with an exact, declarative result.
- **Analyses and rewriting** (`Escape`, `FlowHeap`, `EscapeSoundness`, `EscapeOccurrences`, `EffectClosure`,
  `TransitiveEffects`, `FlowDependencies`, `LinePatterns`, `CommentBlocks`, `GeneratedComments`, `FixEdits`,
  `PatternCircuit`, `CircuitText`, `CircuitReadback`). Escape analysis against executions over a heap and by the
  places where names stand, effect closures over call graphs, two text editors, and drawing a pattern as a circuit
  whose source text says exactly what was drawn.
- **Data** (`DigitText`, `JsonText`, `JsonEscapes`, `CanonicalJson`, `JsonSpelling`, `JsonAcceptance`, `JsonScanner`,
  `Decimals`, `DecimalForms`, `CacheSpec`, `CacheAnswers`, `BoundedCache`). The bounded JSON scanner against its
  printer and against the grammar, correctly rounded decimal division, and the cache over every run.

Code that updates state in the source is imperative here too: classes for the compiler's buffer, the machine, the
scanner, the emitter and the cache, and loops over queues, stacks and maps. Each is proved against a specification
function or predicate, and the lemmas about that specification carry the meaning. Large invariants are folded behind
`Folding.Unlock`, which is always true, so that only the lemmas about one step open them.

## Findings

Where the code and what its comments say differ, the model follows the code.

- A surplus argument of a bytecode run lands in a local's slot (`CompiledCalls.ExtraArgumentLeaks`), and a parameter
  named twice shifts the arguments of those after it (`CompiledCalls.RepeatedNameShifts`). `CompiledCalls.FittingIsExact`
  and, for distinct names, `CompiledCalls.SurplusIsExact` say on which argument lists all flows are right.
- Beyond a stack need of 256 the machine silently computes a wrong value (`CompiledFlows.StackNeedIsExact`);
  `CompiledFlows.StackBoundIsExact` says which needs are safe.
- The acyclicity flag ignores self-loops, and the budget rule is then silent about what lies behind one
  (`Budget.SelfLoopIsSilent`); without self-loops it is exact (`Budget.LooplessRefusal`), and
  `Budget.ExactExactlyWhenCovered` says on which graphs it is right for all budgets: a cycle that IN cannot reach
  is enough to hide a reachable wire. `BudgetRule.RuleIsExactExactly` says the same of the refusals.
- A flow name declared twice keeps only its last body, so a called flow can be reported as safe to delete; the
  comment at `flow-dependency-analysis.ts:101-104` says the call edges are united
  (`FlowDependencies.SecondDeclarationHidesCalls`; the exact condition is `FlowDependencies.SafeToDeleteExactly`).
- The wire ceiling refuses a drawing of 4096 parts that the part ceiling admits (`CircuitText.DrawnExactly`).
- After a refusal for a resident key the cache's weight counter stays too high, and later accepted values can be
  evicted at once (`CacheSpec.DriftLosesAcceptedValue`; the exact condition is `CacheSpec.AcceptedIsResident`).
- An insertion given before a replacement that starts where it stands does not overlap it, both are applied, and the
  replacement overwrites what was inserted (`FixEdits.SharedStartIsExact`); in every other case `FixEdits.ApplyFixEdits`
  substitutes all applied edits at once.

One difference is between two rules and by design: with taint declared behind a cut that dominates OUT, the domination
rule leaves the case to the separator, which refuses (`Separation.TaintBehindTheCut`).

## Model

| member | source | states |
|---|---|---|
| `I32Arith.MulChecked` | `packages-ts/galerina-core-compiler/src/i32-arith.ts:49-59` | the product if it is a 32-bit integer and the overflow trap otherwise, on the fast path and on the exact one |
| `I32Arith.DivChecked` | `packages-ts/galerina-core-compiler/src/i32-arith.ts:61-65` | division by zero traps; otherwise the quotient rounded toward zero on the whole numbers, which traps exactly when it is out of range |
| `I32Arith.DivModLaw` | `packages-ts/galerina-core-compiler/src/i32-arith.ts:61-70` | whenever the division does not trap, dividend = quotient * divisor + remainder, the remainder is smaller than the divisor and has the dividend's sign |
| `I32Arith.TruncRealIsQuotient` | `packages-ts/galerina-core-compiler/src/i32-arith.ts:64` | truncating the real quotient is integer division toward zero |
| `BytecodeCompiler.Compiler.AllocateSlot` | `packages-ts/galerina-core-compiler/src/bytecode-vm.ts:85-92` | a name keeps its slot; a new name gets the next free one |
| `BytecodeCompiler.Compiler.EmitExpr` | `packages-ts/galerina-core-compiler/src/bytecode-vm.ts:225-288` | appends exactly the specified code of the expression to the buffer, or refuses |
| `BytecodeCompiler.Compiler.EmitIf` | `packages-ts/galerina-core-compiler/src/bytecode-vm.ts:169-194` | appends a conditional whose placeholders have been patched to the else part and the end |
| `BytecodeCompiler.Compiler.EmitWhile` | `packages-ts/galerina-core-compiler/src/bytecode-vm.ts:196-209` | appends a loop whose exit placeholder has been patched to the instruction after the backward jump |
| `BytecodeCompiler.Compiler.EmitStmt` | `packages-ts/galerina-core-compiler/src/bytecode-vm.ts:140-218` | appends exactly the specified code of the statement, with the slot table the specification says |
| `BytecodeCompiler.Compiler.Compile` | `packages-ts/galerina-core-compiler/src/bytecode-vm.ts:94-132` | the program of a flow: parameters in the first slots, the body, the implicit return of 0; refusal exactly where the specification refuses |
| `AcceptedFlows.AcceptedExactly` | `packages-ts/galerina-core-compiler/src/bytecode-vm.ts:94-288` | the compiler accepts exactly the flows without 64-bit scalars, with parameters of six types, whose statements, conditionals and loops among them, use 32-bit numbers, truth values, known names and the operators of the table |
| `AcceptedFlows.StmtAccepted` | `packages-ts/galerina-core-compiler/src/bytecode-vm.ts:140-218` | a statement is accepted if and only if all of it is, and then the names it binds are known, in branches that are not taken too |
| `BytecodeVm.StepProgress` | `packages-ts/galerina-core-compiler/src/bytecode-vm.ts:331-398` | every turn of the machine moves forward in the code or takes one of the remaining back-edges |
| `BytecodeVm.TurnsBound` | `packages-ts/galerina-core-compiler/src/bytecode-vm.ts:331-398` | on any code array the number of turns is at most (back-edges left) * (length + 1) plus what lies ahead |
| `BytecodeVm.TurnsOfProgram` | `packages-ts/galerina-core-compiler/src/bytecode-vm.ts:313-399` | a whole run takes at most (cap + 1) * (length + 1) turns |
| `BytecodeVm.Machine.Turn` | `packages-ts/galerina-core-compiler/src/bytecode-vm.ts:332-396` | one turn on the arrays is one step of the specification, trap or result included |
| `BytecodeVm.RunBytecode` | `packages-ts/galerina-core-compiler/src/bytecode-vm.ts:313-399` | the loop over arrays ends with the outcome of the specified machine on every code array, argument list and cap |
| `CompilerCorrectness.ExprRuns` | `packages-ts/galerina-core-compiler/src/bytecode-vm.ts:225-288` | running the code of an expression pushes the reference value on the stack, or traps as the evaluator does, within the stack need |
| `OperatorMeaning.EvalMeans` | `packages-ts/galerina-core-compiler/src/bytecode-vm.ts:339-358` | both operands are evaluated, a trap in one is the answer, and otherwise the operator gives its result: exact arithmetic or a trap, comparisons 0 or 1, for the connectives the operand that is no larger or no smaller than the other |
| `OperatorMeaning.UnaryMeans` | `packages-ts/galerina-core-compiler/src/bytecode-vm.ts:362-363` | negation is exact and traps on the least integer only; the exclamation mark gives 1 for zero and 0 otherwise |
| `OperatorMeaning.MeaningIsUnique` | `packages-ts/galerina-core-compiler/src/bytecode-vm.ts:339-358` | these conditions leave one result for each pair of operands |
| `OperatorMeaning.CompiledOperator` | `packages-ts/galerina-core-compiler/src/bytecode-vm.ts:94-399` | the compiled flow that applies a binary operator to its two parameters answers what the operator means on every two arguments, traps included |
| `OpcodeMeaning.MovesMean` | `packages-ts/galerina-core-compiler/src/bytecode-vm.ts:336-338` | by opcode number: a constant or the local of a slot is put on the stack, or the top is taken off into a slot, and nothing else changes |
| `OpcodeMeaning.BinaryMeansHere` | `packages-ts/galerina-core-compiler/src/bytecode-vm.ts:339-358` | by opcode number: each of the thirteen binary instructions replaces two operands by what its operator means, or stops with its trap |
| `OpcodeMeaning.UnaryMeansHere` | `packages-ts/galerina-core-compiler/src/bytecode-vm.ts:362-363` | by opcode number: truth is turned round, and a number negated or trapped |
| `OpcodeMeaning.JumpsMean` | `packages-ts/galerina-core-compiler/src/bytecode-vm.ts:365-385` | a jump goes to its target; one to an earlier place is counted, and stops the machine if it is one too many |
| `OpcodeMeaning.EndsMean` | `packages-ts/galerina-core-compiler/src/bytecode-vm.ts:387-398` | returning, halting and running off the end give the top of the stack, the latter two zero on an empty one; an unknown opcode stops the machine |
| `OpcodeMeaning.OutsideTheStack` | `packages-ts/galerina-core-compiler/src/bytecode-vm.ts:334-336` | beyond the 256 slots what is put on the stack is dropped, and what is taken off is stored as zero |
| `OpcodeMeaning.RunSteps` | `packages-ts/galerina-core-compiler/src/bytecode-vm.ts:331-333` | a run is one step after the other until one stops it |
| `OpcodeMeaning.MissingOperands` | `packages-ts/galerina-core-compiler/src/bytecode-vm.ts:339-358` | what a binary instruction gives when an operand lies outside the stack |
| `OpcodeMeaning.RunBegins` | `packages-ts/galerina-core-compiler/src/bytecode-vm.ts:313-321` | a run starts with an empty stack of 256 slots, arguments by position reduced to 32 bits, zeros in the other slots |
| `CompilerCorrectness.StmtRuns` | `packages-ts/galerina-core-compiler/src/bytecode-vm.ts:140-218` | running the code of a statement from an empty stack ends at its last instruction with an empty stack and the reference environment and budget, or stops as the evaluator does |
| `CompilerCorrectness.IfRuns` | `packages-ts/galerina-core-compiler/src/bytecode-vm.ts:169-194` | the same for conditionals with and without an else part |
| `CompilerCorrectness.WhileRuns` | `packages-ts/galerina-core-compiler/src/bytecode-vm.ts:196-209` | the same for loops, with the global budget of back-edges |
| `CompilerCorrectness.BlockRuns` | `packages-ts/galerina-core-compiler/src/bytecode-vm.ts:134-138` | the same for blocks |
| `CompiledFlows.CompiledFlowIsCorrect` | `packages-ts/galerina-core-compiler/src/bytecode-vm.ts:94-399` | for every flow the compiler accepts with a stack need of at most 256, all arguments and every cap, the compiled run and the reference evaluator have the same outcome |
| `CompiledFlows.StackNeedIsExact` | `packages-ts/galerina-core-compiler/src/bytecode-vm.ts:319` | for the sums nested to the right, the compiled run is right if and only if the stack need is at most 256; beyond it the result is 255 |
| `CompiledFlows.StackBoundIsExact` | `packages-ts/galerina-core-compiler/src/bytecode-vm.ts:319` | all flows with a given stack need are right on all arguments if and only if that need is at most 256 |
| `CompiledCalls.FittingCallIsCorrect` | `packages-ts/galerina-core-compiler/src/bytecode-vm.ts:94-399` | when every parameter's slot holds the argument bound to the parameter and the surplus is zero, the compiled run is the call with the parameters bound by name |
| `CompiledCalls.CompiledCallIsCorrect` | `packages-ts/galerina-core-compiler/src/bytecode-vm.ts:94-399` | with distinct parameters and a surplus of nothing but multiples of 2^32, the compiled run is the call |
| `CompiledCalls.FittingIsExact` | `packages-ts/galerina-core-compiler/src/bytecode-vm.ts:102-112` | on an argument list, all flows with the given parameters are right if and only if the arguments fit the parameters, repeated names included |
| `CompiledCalls.SurplusIsExact` | `packages-ts/galerina-core-compiler/src/bytecode-vm.ts:316-318` | with distinct parameters, all flows are right on an argument list if and only if every surplus argument is a multiple of 2^32 |
| `CompiledCalls.ExtraArgumentLeaks` | `packages-ts/galerina-core-compiler/src/bytecode-vm.ts:316-318` | any surplus argument lands in a local's slot and is returned by a flow that declares no parameter, where the reference returns 0 |
| `CompiledCalls.RepeatedNameShifts` | `packages-ts/galerina-core-compiler/src/bytecode-vm.ts:86-93` | a parameter named twice takes one slot, and the parameter after it reads its neighbour's argument |
| `CompiledCalls.TryRunBytecode` | `packages-ts/galerina-core-compiler/src/bytecode-vm.ts:459-470` | the whole path from flow to outcome: refused exactly when not pure or not compilable, otherwise the machine's outcome at the default cap, which is the call's whenever the arguments fit |
| `JumpTargets.JumpsLandOnInstructions` | `packages-ts/galerina-core-compiler/src/bytecode-vm.ts:169-209` | in every compiled program each jump, patched or not, lands on the start of an instruction or on the end |
| `CircuitGraph.BuildGateGraph` | `packages-ts/galerina-core-compiler/src/gate-v3-graph.ts:124-173` | the loops and sorts build the canonical graph of the specification |
| `CodeUnitOrder.LeMeans` | `packages-ts/galerina-core-compiler/src/gate-v3-graph.ts:84-95` | a string stands no later than another if and only if it is a prefix of it or has the smaller character where the two first differ |
| `GraphMeaning.NodesBelong` | `packages-ts/galerina-core-compiler/src/gate-v3-graph.ts:124-143` | the nodes are the input frontier, the output, one for each part and one for each terminal that a wire names and no part does, each once |
| `GraphMeaning.EdgesAreWires` | `packages-ts/galerina-core-compiler/src/gate-v3-graph.ts:97-108` | the edges are the wires, each as often as drawn, from its producer to its consumer; at a terminal the reason belongs to the node and the port is empty |
| `GraphMeaning.GraphAscends` | `packages-ts/galerina-core-compiler/src/gate-v3-graph.ts:145-173` | nodes ascend by name; of two edges the first difference among source node, source port, target node, target port and written annotation decides |
| `GraphMeaning.PassesStartAtFrontier` | `packages-ts/galerina-core-compiler/src/gate-v3-graph.ts:124-129` | the passes start at the input frontier of the graph and watch its output |
| `CircuitGraph.EdgeLeIsTotalOrder` | `packages-ts/galerina-core-compiler/src/gate-v3-graph.ts:145-163` | the edge comparator is a total order: its ties are only between equal edges |
| `CircuitGraph.GraphIsCanonical` | `packages-ts/galerina-core-compiler/src/gate-v3-graph.ts:109-173` | any permutation of the parts and wires gives the identical graph, node and edge order included |
| `CircuitGraph.GraphIsWellFormed` | `packages-ts/galerina-core-compiler/src/gate-v3-graph.ts:124-173` | when every endpoint names the frontier, a part or a terminal, every edge joins two nodes of the graph |
| `Condense.FindComponents` | `packages-ts/galerina-core-compiler/src/gate-v3-condense.ts:93-149` | the explicit-stack traversal finds exactly the strongly connected components, each once |
| `Condense.CondenseGateGraph` | `packages-ts/galerina-core-compiler/src/gate-v3-condense.ts:87-181` | components, names, component edges and the acyclic flag are those of the condensation, in canonical order |
| `Condense.CondensationAscends` | `packages-ts/galerina-core-compiler/src/gate-v3-condense.ts:151-173` | members ascend inside a component, components by their first members, and component edges by source and then target |
| `Condense.VerifyGateGraphAcyclic` | `packages-ts/galerina-core-compiler/src/gate-v3-condense.ts:189-201` | silent if and only if no two different nodes reach each other; otherwise exactly the components of several members, each once and in order: two nodes that reach each other stand together in one refusal, and no node in two |
| `Condense.SameComponent` | `packages-ts/galerina-core-compiler/src/gate-v3-condense.ts:156-159` | two nodes have the same component name if and only if each reaches the other |
| `Condense.ComponentName` | `packages-ts/galerina-core-compiler/src/gate-v3-condense.ts:64-66` | a component is named after a member that stands no later than any other |
| `Condense.ReachPreserved` | `packages-ts/galerina-core-compiler/src/gate-v3-condense.ts:161-173` | a node reaches another in the graph if and only if its component reaches the other's in the component graph |
| `Condense.ComponentGraphIsAcyclic` | `packages-ts/galerina-core-compiler/src/gate-v3-condense.ts:161-173` | no path of component edges returns to where it started |
| `Condense.AcyclicMeaning` | `packages-ts/galerina-core-compiler/src/gate-v3-condense.ts:69-70` | the flag holds if and only if no two different nodes reach each other; self-loops do not count |
| `Condense.CondensationIsUnique` | `packages-ts/galerina-core-compiler/src/gate-v3-condense.ts:79-86` | a graph has only one condensation: equal graphs give equal output |
| `DepthFirst.ReversePostorder` | `packages-ts/galerina-core-compiler/src/gate-v3-privacy.ts:62-78` | the order starts at IN, holds exactly the reachable nodes once each, and every other node after one of its predecessors |
| `DominatorTree.Star` | `packages-ts/galerina-core-compiler/src/gate-v3-privacy.ts:90-104` | what was above a node before a pass still bounds what is above it after the pass |
| `DominatorTree.StepPass` | `packages-ts/galerina-core-compiler/src/gate-v3-privacy.ts:94-104` | giving a node the meet of its predecessors keeps the pass invariant and never moves a parent down |
| `Dominators.Intersect` | `packages-ts/galerina-core-compiler/src/gate-v3-privacy.ts:81-90` | the node where two chains meet has above it exactly what both have above them |
| `Dominators.OnePass` | `packages-ts/galerina-core-compiler/src/gate-v3-privacy.ts:94-104` | a pass keeps tree and map in step; it either moves some parent up or finds every parent to be the meet of its predecessors |
| `Dominators.ComputeDominators` | `packages-ts/galerina-core-compiler/src/gate-v3-privacy.ts:52-107` | on every graph, cyclic or not, the loop ends; the map holds exactly the reachable nodes, each with its immediate dominator |
| `Dominators.DominatorsOf` | `packages-ts/galerina-core-compiler/src/gate-v3-privacy.ts:110-120` | d is in the result if and only if d differs from the node, the node is reachable, and every path from IN to it passes d |
| `Separation.Flood` | `packages-ts/galerina-core-compiler/src/gate-v3-privacy.ts:196-203` | the queue-driven search sees exactly what is reached without leaving a stop node |
| `Separation.VerifyTaintCutSeparator` | `packages-ts/galerina-core-compiler/src/gate-v3-privacy.ts:181-247` | silent if and only if no cut is declared or no taint gets to OUT past every cut |
| `Separation.SilentMeansSeparated` | `packages-ts/galerina-core-compiler/src/gate-v3-privacy.ts:203-247` | with cuts declared, none of them OUT itself, the rule is silent if and only if every path from the taint frontier to OUT contains a cut |
| `Separation.OneCutAgreesWithDomination` | `packages-ts/galerina-core-compiler/src/gate-v3-privacy.ts:181-201` | one cut separates OUT from IN if and only if OUT is unreachable or has the cut strictly above it |
| `Separation.VerifyCutDominatesEgress` | `packages-ts/galerina-core-compiler/src/gate-v3-privacy.ts:181-201` | silent if and only if no cut, no way out, some cut above OUT, or the separator is silent |
| `Separation.RulesAgreeAtTheFrontier` | `packages-ts/galerina-core-compiler/src/gate-v3-privacy.ts:185-197` | with no taint declared the domination rule and the separator always give the same answer |
| `Separation.TaintBehindTheCut` | `packages-ts/galerina-core-compiler/src/gate-v3-privacy.ts:194-197` | with taint declared behind the cut they differ: the cut dominates OUT and the separator refuses |
| `Separation.VerifyTaintReachesSink` | `packages-ts/galerina-core-compiler/src/gate-v3-privacy.ts:263-316` | with cuts and taint declared, the entries of the table of sinks that taint gets to past every cut, in the order of the table; otherwise nothing |
| `Separation.SinksAreCaught` | `packages-ts/galerina-core-compiler/src/gate-v3-privacy.ts:263-316` | one refusal for each instance with an egress effect that taint gets to, naming the first egress effect of its last egress part |
| `Separation.FirstEgressIs` | `packages-ts/galerina-core-compiler/src/gate-v3-privacy.ts:133-137` | an effect is found exactly when some effect is one of the four that let a value leave, and then it is the first such |
| `Separation.SinkTableOrder` | `packages-ts/galerina-core-compiler/src/gate-v3-privacy.ts:272-278` | the table lists instances in the order of their first egress parts |
| `Separation.VerifyDenyArmContainment` | `packages-ts/galerina-core-compiler/src/gate-v3-authority.ts:138-185` | refuses exactly the wires on a non-allow arm from which some path reaches OUT with no decision part before its end, in wire order |
| `Separation.ContainedArmsAreRedecided` | `packages-ts/galerina-core-compiler/src/gate-v3-authority.ts:119-137` | without a refusal every path from a non-allow arm to OUT passes another decision part |
| `Budget.ComposeWorstCaseBudgets` | `packages-ts/galerina-core-compiler/src/gate-v3-budget.ts:48-79` | on every graph: exactly the nodes that a walk from IN through nodes not behind a cycle leads to, each with the largest cost of such a walk |
| `Budget.LooplessWorstCosts` | `packages-ts/galerina-core-compiler/src/gate-v3-budget.ts:41-79` | without cycles and self-loops: exactly the nodes reachable from IN, each with the largest cost of any walk from IN |
| `Budget.ExactExactlyWhenCovered` | `packages-ts/galerina-core-compiler/src/gate-v3-budget.ts:48-79` | the computed costs cover every walk from IN, whatever the wires cost, if and only if no wire that can be reached leaves a node on or behind a cycle, reachable or not |
| `Budget.LooplessMeaning` | `packages-ts/galerina-core-compiler/src/gate-v3-condense.ts:69-70` | cycle-free means what the condensation calls acyclic, and no self-loop |
| `Budget.VerifyBudgetComposition` | `packages-ts/galerina-core-compiler/src/gate-v3-budget.ts:88-113` | silent on a graph with two mutually reachable nodes; otherwise refuses, in order, the ceilings that are negative or exceeded by a walk through settled nodes to an output or terminal |
| `Budget.LooplessRefusal` | `packages-ts/galerina-core-compiler/src/gate-v3-budget.ts:81-113` | without cycles and self-loops a non-negative ceiling is refused if and only if some walk from IN to an output or terminal exceeds it |
| `Budget.SelfLoopIsSilent` | `packages-ts/galerina-core-compiler/src/gate-v3-budget.ts:62-79` | a graph with a self-loop passes as acyclic, a walk of cost 14 exceeds the ceiling 10, and nothing is refused |
| `BudgetRule.RuleIsExactExactly` | `packages-ts/galerina-core-compiler/src/gate-v3-budget.ts:81-113` | the rule refuses exactly the non-negative ceilings that some walk exceeds, whatever the budgets on the wires, if and only if no two nodes reach each other and no wire on a way from IN to an output or terminal leaves a node on or behind a cycle, or there is no such way |
| `Escape.ComputeAliases` | `packages-ts/galerina-core-compiler/src/escape-analysis.ts:81-105` | the loop ends with the least alias set: exactly the names plain rebindings lead to from the record's name |
| `Escape.Visit` | `packages-ts/galerina-core-compiler/src/escape-analysis.ts:131-158` | the walk with its early exit answers whether an alias stands anywhere but as a field-read receiver or a whole right side |
| `EscapeOccurrences.EscapesIsUnsafe` | `packages-ts/galerina-core-compiler/src/escape-analysis.ts:131-158` | the walk answers yes if and only if some path of child positions leads to one of the names, takes only the receiver below a field read, and passes no field read or binding that has one of the names in its safe place |
| `EscapeOccurrences.SafePlacesMeanNo` | `packages-ts/galerina-core-compiler/src/escape-analysis.ts:107-124` | if every one of the names stands as the receiver of a field read or as the whole right side of a binding, the answer is no |
| `EscapeOccurrences.ArcsAreRebindings` | `packages-ts/galerina-core-compiler/src/escape-analysis.ts:46-96` | one name passes to another exactly where a binding anywhere in the body has the first as its whole right side and the second in front of its colon, white space aside |
| `EscapeOccurrences.RecordEscapes` | `packages-ts/galerina-core-compiler/src/escape-analysis.ts:125-159` | yes if and only if a name that a chain of plain rebindings leads to from the record's name stands at such an unsafe place |
| `EscapeSoundness.NoEscapeIsSound` | `packages-ts/galerina-core-compiler/src/escape-analysis.ts:107-159` | if the analysis answers no, then in every execution, with branches, loops and arbitrary answers and stores of unseen code, a record allocated at the name is never returned, passed on or stored in a field, and only aliases hold it |
| `EscapeSoundness.EvalKeeps` | `packages-ts/galerina-core-compiler/src/escape-analysis.ts:107-159` | every step of an execution keeps those facts |
| `EffectClosure.Pass` | `packages-ts/galerina-core-compiler/src/effect-checker.ts:1080-1101` | one in-place pass over the flows, and a changed flag that is exact |
| `EffectClosure.LatePassIsQuiet` | `packages-ts/galerina-core-compiler/src/effect-checker.ts:1077-1105` | after as many passes as there are nodes, less one, another pass changes nothing, whatever the order |
| `EffectClosure.OnePassIsExact` | `packages-ts/galerina-core-compiler/src/effect-checker.ts:1106-1111` | with callees before callers one pass finds the closure |
| `EffectClosure.CloseEffects` | `packages-ts/galerina-core-compiler/src/effect-checker.ts:1051-1117` | the closure always settles within the passes allowed; then each flow has exactly the effects of the flows it reaches, and is complete if and only if all of them are |
| `TransitiveEffects.HasTransitiveEffect` | `packages-ts/galerina-core-compiler/src/effect-checker.ts:1807-1825` | a nested call of the walk answers yes only for an effect that is there, and after no leaves every newly seen flow clear of it |
| `TransitiveEffects.HasEffect` | `packages-ts/galerina-core-compiler/src/effect-checker.ts:1807-1825` | asked with nothing seen, yes if and only if some flow reached by at least one call declares the effect, on cyclic graphs too |
| `TransitiveEffects.CollectTransitiveCalledEffects` | `packages-ts/galerina-core-compiler/src/effect-checker.ts:1775-1805` | a nested call collects everything introduced through the flows it newly sees |
| `TransitiveEffects.CollectEffects` | `packages-ts/galerina-core-compiler/src/effect-checker.ts:1775-1805` | asked from scratch, the keys are exactly the effects declared by flows reached by at least one call, each mapped to one such flow |
| `TransitiveEffects.WalksAgree` | `packages-ts/galerina-core-compiler/src/effect-checker.ts:1775-1825` | when only declared flows have calls, one walk finds an effect if and only if the other collects it |
| `TransitiveEffects.DeclaresMeans` | `packages-ts/galerina-core-compiler/src/effect-checker.ts:1784` | what a name declares is what the first flow of that name declares |
| `PatternCircuit.MatchIsRow` | `packages-ts/galerina-core-compiler/src/gate-from-pattern.ts:62-68` | a pattern matches a text if and only if its expanded row of atoms accepts it character by character |
| `PatternCircuit.CountIsLength` | `packages-ts/galerina-core-compiler/src/gate-from-pattern.ts:202-208` | the count made before expanding is the number of classifiers the expansion has |
| `PatternCircuit.Emitter.Emit` | `packages-ts/galerina-core-compiler/src/gate-from-pattern.ts:230-257` | appends exactly the parts, wires and reasons of the expanded row and returns its single exit |
| `CircuitText.GenerateCircuit` | `packages-ts/galerina-core-compiler/src/gate-from-pattern.ts:279-325` | refuses on the count, then on an empty drawing, then on the wires, then on the bytes of the text; otherwise gives the drawing and its source text, line by line |
| `CircuitText.DrawnExactly` | `packages-ts/galerina-core-compiler/src/gate-from-pattern.ts:279-324` | a parsed pattern is drawn if and only if it has between 1 and 4094 atoms, the wire ceiling binding before the part ceiling, and its text fits the file |
| `CircuitText.RefusedExactly` | `packages-ts/galerina-core-compiler/src/gate-from-pattern.ts:279-324` | more than 4096 parts, boundary included, are refused first; then an empty drawing; then 4095 atoms on their 8193 wires; then more than 524288 bytes |
| `CircuitReadback.SourceReads` | `packages-ts/galerina-core-compiler/src/gate-from-pattern.ts:303-317` | reading the text back gives exactly the parts and wires, the circuit's name, the number of parts and the pattern |
| `CircuitReadback.GeneratedTextMeansPattern` | `packages-ts/galerina-core-compiler/src/gate-from-pattern.ts:268-326` | the circuit read from a generated text is the one that was drawn and accepts exactly the inputs that the pattern matches |
| `CircuitText.SourceBound` | `packages-ts/galerina-core-compiler/src/gate-from-pattern.ts:303-317` | the text of up to 4094 atoms takes at most 123 bytes for each atom, two for each character of the pattern, and 600 |
| `CircuitText.ShortPatternsFit` | `packages-ts/galerina-core-compiler/src/gate-from-pattern.ts:279-324` | for patterns of up to 10000 characters the size never refuses: drawn if and only if between 1 and 4094 atoms |
| `CircuitText.LongPatternsAreRefused` | `packages-ts/galerina-core-compiler/src/gate-from-pattern.ts:318-324` | a pattern text as long as the file ceiling is never drawn, however few atoms it has |
| `PatternCircuit.TargetsDistinct` | `packages-ts/galerina-core-compiler/src/gate-from-pattern.ts:216-257` | every endpoint of the drawing that a wire enters has exactly one producer |
| `PatternCircuit.ReasonsDistinct` | `packages-ts/galerina-core-compiler/src/gate-from-pattern.ts:225-229` | the refusal reasons are pairwise different |
| `PatternCircuit.DrawingMeansPattern` | `packages-ts/galerina-core-compiler/src/gate-from-pattern.ts:216-300` | the drawn circuit reaches OUT on exactly the inputs the pattern matches, and refuses every other input naming the first position that fails |
| `PatternCircuit.RefusalNamesPosition` | `packages-ts/galerina-core-compiler/src/gate-from-pattern.ts:225-257` | a refused input is refused naming, in decimal and counted from one, the first position that finds no character or one it does not take, and `trailing_input` when only the end is too early |
| `PatternCircuit.ReasonsAreDenied` | `packages-ts/galerina-core-compiler/src/gate-from-pattern.ts:288-296` | the reasons handed on are those of the wires that end at DENY, in wire order |
| `PatternCircuit.PartsAre` | `packages-ts/galerina-core-compiler/src/gate-from-pattern.ts:232-243` | the parts are the row's atoms under the names p1, p2 and on, in decimal, and the boundary `end` |
| `PatternCircuit.ClassifierWires` | `packages-ts/galerina-core-compiler/src/gate-from-pattern.ts:241-245` | each classifier is entered at `subject`, passes on from `match` and refuses from `no` to the reason with its number |
| `PatternCircuit.BoundaryWires` | `packages-ts/galerina-core-compiler/src/gate-from-pattern.ts:290-296` | the last classifier feeds the boundary, whose `ok` goes to OUT and whose `more` is refused as trailing input |
| `FixEdits.JoinSplit` | `packages-ts/galerina-core-compiler/src/fix-edit.ts:45-52` | splitting a source into lines and terminators and joining them gives the source back |
| `FixEdits.SplitIs` | `packages-ts/galerina-core-compiler/src/fix-edit.ts:45-52` | no line holds a line feed, and every terminator is a line feed with the carriage return before it if there is one |
| `FixEdits.OverlapMeans` | `packages-ts/galerina-core-compiler/src/fix-edit.ts:34-36` | two non-empty spans overlap if and only if they share a column of a line |
| `FixEdits.EmptyOverlapMeans` | `packages-ts/galerina-core-compiler/src/fix-edit.ts:34-36` | an empty span overlaps a span if and only if it stands strictly inside it |
| `FixEdits.AcceptEdits` | `packages-ts/galerina-core-compiler/src/fix-edit.ts:54-68` | the accepted edits are, in their order, exactly those that are in range and overlap no edit accepted before them; accepted plus skipped is all |
| `CodeUnitOrder.SortIsStable` | `packages-ts/galerina-core-compiler/src/fix-edit.ts:57` | the sort takes every element once, and leaves elements that the order ties in the order given |
| `FixEdits.OneMore` | `packages-ts/galerina-core-compiler/src/fix-edit.ts:70-76` | splicing one more edit before all others of its line gives the simultaneous substitution with that edit added, insertions included |
| `FixEdits.SplicedIsSubstituted` | `packages-ts/galerina-core-compiler/src/fix-edit.ts:70-76` | edits applied one by one, each before all earlier ones of its line, leave every line as the original with all of them substituted at once |
| `FixEdits.ApplyFixEdits` | `packages-ts/galerina-core-compiler/src/fix-edit.ts:42-85` | the edits that are applied, by their places in the list: those in range that overlap none before them, where a later start, and at one place the earlier giving, comes first; unless an insertion is given before a replacement that starts where it stands, the result is the source with them all substituted at once and every terminator unchanged |
| `FixEdits.SharedStartIsExact` | `packages-ts/galerina-core-compiler/src/fix-edit.ts:34-36` | two edits that start at one place without overlapping give their substitution on every text and with all replacements if and only if the first is no insertion or the second is one: a replacement after an insertion at its start overwrites what was inserted |
| `LinePatterns.GeneratedDeclaresNothing` | `packages-ts/galerina-core-compiler/src/flow-dependency-analysis.ts:152-161` | a line of the comment pattern never matches the declaration pattern |
| `LinePatterns.IndentedTrims` | `packages-ts/galerina-core-compiler/src/flow-dependency-analysis.ts:157-162` | white space in front of a line changes nothing that the comment pattern looks at |
| `LinePatterns.GeneratedMeans` | `packages-ts/galerina-core-compiler/src/flow-dependency-analysis.ts:161` | a line is a generated comment if and only if, white space aside, it starts with `//fungi:` |
| `LinePatterns.DeclarationMeans` | `packages-ts/galerina-core-compiler/src/flow-dependency-analysis.ts:152` | a line declares a flow if and only if it is white space, perhaps `pure`, `secure` or `guarded`, the word `flow` and a name that ends where its letters end, with white space between |
| `LinePatterns.SpacesAre` | `packages-ts/galerina-core-compiler/src/flow-dependency-analysis.ts:152-161` | white space is the 25 characters that the regular expressions take for it |
| `CommentBlocks.SplitJoined` | `packages-ts/galerina-core-compiler/src/flow-dependency-analysis.ts:151-166` | joining lines and splitting them again gives the lines back |
| `GeneratedComments.RewriteGeneratedComments` | `packages-ts/galerina-core-compiler/src/flow-dependency-analysis.ts:147-166` | the bottom-up splicing ends and computes the rewriting of the specification, text to text |
| `GeneratedComments.RewritingIsSafe` | `packages-ts/galerina-core-compiler/src/flow-dependency-analysis.ts:138-146` | with fresh blocks: the lines that are not generated comments are the same in the same order, directly above each listed flow stands exactly its fresh block and nothing generated above that, and rewriting again changes nothing |
| `GeneratedComments.OnlyFreshBlocksAreSafe` | `packages-ts/galerina-core-compiler/src/flow-dependency-analysis.ts:138-146` | what people wrote stays in every source if and only if every line of every block is a generated comment |
| `GeneratedComments.RenderedBlocksAreFresh` | `packages-ts/galerina-core-compiler/src/flow-dependency-analysis.ts:119-136` | the blocks rendered from the analysis and the complexity are fresh and of one line each |
| `GeneratedComments.RenderedLines` | `packages-ts/galerina-core-compiler/src/flow-dependency-analysis.ts:124-136` | the rendered lines give the count and list of uses if there are any, of users if there are any, and always the impact, zero being safe to delete |
| `GeneratedComments.RenderedComplexity` | `packages-ts/galerina-core-compiler/src/flow-complexity.ts:44-49` | no line up to complexity one, and otherwise the number, with an advice from ten on |
| `CommentBlocks.UnlistedTextStays` | `packages-ts/galerina-core-compiler/src/flow-dependency-analysis.ts:154-157` | a source without a listed flow comes back unchanged |
| `CommentBlocks.OthersStay` | `packages-ts/galerina-core-compiler/src/flow-dependency-analysis.ts:138-146` | only the runs of generated lines directly above listed declarations are touched: all other lines are the same, in the same order |
| `FlowDependencies.AnalyzeFlowDependencies` | `packages-ts/galerina-core-compiler/src/flow-dependency-analysis.ts:34-79` | direct uses and users, sorted, and as impact the number of other flows that reach the flow by calls |
| `FlowDependencies.LastBodiesDecide` | `packages-ts/galerina-core-compiler/src/flow-dependency-analysis.ts:34-79` | on every program, repeated names included, the impact is zero if and only if no last declaration of another name calls the flow |
| `FlowDependencies.SafeToDeleteExactly` | `packages-ts/galerina-core-compiler/src/flow-dependency-analysis.ts:101-104` | zero impact means that no declaration at all calls the flow, if and only if some last declaration calls it whenever an overwritten one does |
| `FlowDependencies.DistinctNamesAreSafe` | `packages-ts/galerina-core-compiler/src/flow-dependency-analysis.ts:101-104` | with distinct names the impact is zero if and only if no declaration of another flow calls the flow |
| `FlowDependencies.SecondDeclarationHidesCalls` | `packages-ts/galerina-core-compiler/src/flow-dependency-analysis.ts:36-41` | with a name declared twice a called flow has impact zero: the earlier body is forgotten |
| `JsonText.EscapeDenotes` | `packages-ts/galerina-core-compiler/src/checked-flow-artifact.ts:347-350` | a written string denotes the original, control characters and lone surrogates included |
| `JsonEscapes.EscapeForm` | `packages-ts/galerina-core-compiler/src/checked-flow-artifact.ts:347-350` | a string is written with the seven two-unit escapes, other control characters and lone surrogates as four lower-case digits, and all else raw |
| `JsonEscapes.FormIsUnique` | `packages-ts/galerina-core-compiler/src/checked-flow-artifact.ts:347-350` | only one body has that form |
| `JsonEscapes.EscapeIsShortest` | `packages-ts/galerina-core-compiler/src/checked-flow-artifact.ts:347-350` | without lone surrogates no shorter body denotes the string |
| `JsonSpelling.PrintSpells` | `packages-ts/galerina-core-compiler/src/checked-flow-artifact.ts:347-354` | the printed form of a value is its spelling by the grammar: the three words, canonical numbers, strings of that form, commas, colons and brackets, without white space |
| `JsonText.ScannedIsDecodable` | `packages-ts/galerina-core-compiler/src/checked-flow-artifact.ts:396-426` | every string body the scan lets through can be decoded: the refusal after decoding never happens |
| `JsonText.QuoteRoundTrip` | `packages-ts/galerina-core-compiler/src/checked-flow-artifact.ts:347-426` | a written string reads back as itself, up to its closing quote and no further |
| `JsonText.NumberRoundTrip` | `packages-ts/galerina-core-compiler/src/checked-flow-artifact.ts:428-435` | a written safe integer reads back as itself when no digit follows |
| `CanonicalJson.ScannerInvertsPrinter` | `packages-ts/galerina-core-compiler/src/checked-flow-artifact.ts:347-477` | every value within the depth, count, array, field, string and integer bounds scans back from its printed form |
| `JsonAcceptance.AcceptedExactly` | `packages-ts/galerina-core-compiler/src/checked-flow-artifact.ts:366-477` | the scanner reads a text as a value if and only if it is a JSON text of that value without white space, with free escapes and fields in any order, the value is within the bounds, and there are at most 16384 values in it |
| `JsonSpelling.FitsIsWithinBounds` | `packages-ts/galerina-core-compiler/src/checked-flow-artifact.ts:377-471` | the bounds in figures: 64 levels, 8192 items, 32 fields with different keys, 65536 bytes of UTF-8 in a string, safe integers |
| `JsonSpelling.PutPlaces` | `packages-ts/galerina-core-compiler/src/checked-flow-artifact.ts:457-471` | a field whose key is no array index goes last, one whose key is goes behind the smaller indices and before all else, and the others stay as they stand |
| `CanonicalJson.AcceptedTextReprints` | `packages-ts/galerina-core-compiler/src/checked-flow-artifact.ts:347-477` | whatever text is accepted, its value is within the bounds and its printed form scans to the same value |
| `CanonicalJson.PrintedFormIsUnique` | `packages-ts/galerina-core-compiler/src/checked-flow-artifact.ts:347-354` | two values within the bounds that print alike are equal |
| `CanonicalJson.PutInOrder` | `packages-ts/galerina-core-compiler/src/checked-flow-artifact.ts:457-471` | adding fields keeps the order in which a record enumerates them, array-index keys first |
| `JsonScanner.Scanner.Parse` | `packages-ts/galerina-core-compiler/src/checked-flow-artifact.ts:366-370` | the scanner object returns the value, or refuses with the code, that the reading functions give |
| `JsonScanner.Scanner.ParseString` | `packages-ts/galerina-core-compiler/src/checked-flow-artifact.ts:396-426` | the index moves past the closing quote and the decoded string is returned, or the specified refusal |
| `JsonScanner.Scanner.ParseArray` | `packages-ts/galerina-core-compiler/src/checked-flow-artifact.ts:437-452` | items, separators and bounds are read as specified, with index and count in step |
| `JsonScanner.Scanner.ParseObject` | `packages-ts/galerina-core-compiler/src/checked-flow-artifact.ts:454-476` | keys, duplicates, separators and bounds are read as specified, with index and count in step |
| `Decimals.FormatText` | `packages-ts/galerina-core-compiler/src/decimal-arith.ts:71-79` | the padding loop writes the specified text |
| `Decimals.FormatRoundTrip` | `packages-ts/galerina-core-compiler/src/decimal-arith.ts:54-79` | reading what was written gives back the same digits and scale |
| `DecimalForms.ReadExactly` | `packages-ts/galerina-core-compiler/src/decimal-arith.ts:54-66` | a text is read as a number if and only if, white space aside, it is perhaps a sign, digits, perhaps a point and digits, with at least one digit |
| `DecimalForms.PowerIsOneAndZeros` | `packages-ts/galerina-core-compiler/src/decimal-arith.ts:68-69` | a power of ten is what a one followed by that many zeros is read as |
| `DecimalForms.FormatForm` | `packages-ts/galerina-core-compiler/src/decimal-arith.ts:71-79` | a number is written with a minus sign if negative, whole digits without needless zeros, and as many digits behind the point as its scale |
| `Decimals.CompareIsByValue` | `packages-ts/galerina-core-compiler/src/decimal-arith.ts:82-89` | comparing aligned numbers compares their values: trailing zeros do not matter |
| `Decimals.RoundsCorrectly` | `packages-ts/galerina-core-compiler/src/decimal-arith.ts:116-135` | all seven modes round as they say: one-sided, or within half a unit with their rule for ties |
| `Decimals.RoundingIsUnique` | `packages-ts/galerina-core-compiler/src/decimal-arith.ts:111-136` | in each mode only one integer is the rounded quotient |
| `Decimals.FractionIsQuotient` | `packages-ts/galerina-core-compiler/src/decimal-arith.ts:147-153` | the fraction that is rounded is the quotient of the two numbers at the target scale |
| `Decimals.DivIsRoundedQuotient` | `packages-ts/galerina-core-compiler/src/decimal-arith.ts:142-154` | division gives the one decimal of the asked scale that is the exact quotient rounded in the mode |
| `Decimals.DivRemLaw` | `packages-ts/galerina-core-compiler/src/decimal-arith.ts:142-167` | a equals decDiv(a, b, 0, down) * b + decRem(a, b) by value, for every scale and sign |
| `Decimals.AddUndoesSub` | `packages-ts/galerina-core-compiler/src/decimal-arith.ts:91-103` | b plus the difference decSub(a, b) is a by value |
| `DecimalForms.SumIsExact` | `packages-ts/galerina-core-compiler/src/decimal-arith.ts:91-96` | a sum keeps the larger scale and is exact |
| `DecimalForms.DifferenceIsExact` | `packages-ts/galerina-core-compiler/src/decimal-arith.ts:98-103` | so does and is a difference |
| `DecimalForms.ProductIsExact` | `packages-ts/galerina-core-compiler/src/decimal-arith.ts:105-109` | a product adds the scales and is exact |
| `DecimalForms.DivisionRefuses` | `packages-ts/galerina-core-compiler/src/decimal-arith.ts:142-146` | division refuses a scale outside 0 to 100 and what is no number, and after that a zero divisor |
| `DecimalForms.SumsRefuse` | `packages-ts/galerina-core-compiler/src/decimal-arith.ts:91-109` | sums, differences and products refuse exactly what is no number |
| `DecimalForms.RemainderRefuses` | `packages-ts/galerina-core-compiler/src/decimal-arith.ts:160-163` | the remainder refuses what is no number, and after that a zero divisor |
| `CacheSpec.EvictionIsMinimal` | `packages-ts/galerina-core-compiler/src/bounded-cache.ts:175-184` | eviction drops the fewest oldest entries that make the rest fit, keeps the order of the rest, and keeps every invariant |
| `CacheSpec.StepKeeps` | `packages-ts/galerina-core-compiler/src/bounded-cache.ts:132-240` | every operation keeps: keys and tombstones distinct and disjoint, both bounds, the tombstone ceiling, counter at least the resident weight; and only a refused value for a resident key makes the counter drift |
| `CacheSpec.RunKeeps` | `packages-ts/galerina-core-compiler/src/bounded-cache.ts:132-240` | over every run there are at most maxEntries entries and they weigh at most maxWeight |
| `CacheSpec.CounterIsExact` | `packages-ts/galerina-core-compiler/src/bounded-cache.ts:149-154` | the counter equals the resident weight as long as no resident key was offered a value that was refused |
| `CacheSpec.HitsAreFresh` | `packages-ts/galerina-core-compiler/src/bounded-cache.ts:92-95` | over every run a resident entry holds the value its key was last given, and entries stand in the order of their last use |
| `CacheSpec.HitIsLastAdmitted` | `packages-ts/galerina-core-compiler/src/bounded-cache.ts:132-140` | a hit after any run returns the last value admitted for the key since it was refused, deleted or cleared |
| `CacheSpec.AcceptedIsResident` | `packages-ts/galerina-core-compiler/src/bounded-cache.ts:142-166` | an accepted value is resident afterwards if and only if it fits on top of the drift |
| `CacheSpec.DriftIsReached` | `packages-ts/galerina-core-compiler/src/bounded-cache.ts:149-154` | offering a resident key a value that is too heavy leaves the counter above the resident weight |
| `CacheSpec.DriftLosesAcceptedValue` | `packages-ts/galerina-core-compiler/src/bounded-cache.ts:149-184` | from there on a value that is accepted is evicted at once |
| `CacheAnswers.GetAnswers` | `packages-ts/galerina-core-compiler/src/bounded-cache.ts:132-140` | a lookup hits if and only if the cache is on and the key is resident; the answer is its value, the entry moves to the recent end, and a hit or a miss is counted |
| `CacheAnswers.SetAnswers` | `packages-ts/galerina-core-compiler/src/bounded-cache.ts:146-172` | a value is accepted if and only if the cache is on and it weighs a non-negative amount within the ceiling for one item; refused, it costs its key the entry and leaves the counter |
| `CacheAnswers.AcceptedState` | `packages-ts/galerina-core-compiler/src/bounded-cache.ts:155-209` | an accepted value is the newest entry, and the oldest that go are counted and remembered with weight and number, as many as tombstones are kept |
| `CacheAnswers.DeleteAnswers` | `packages-ts/galerina-core-compiler/src/bounded-cache.ts:232-238` | a removal answers whether the key was resident and takes its entry, its weight and any memory of it |
| `CacheAnswers.ClearAnswers` | `packages-ts/galerina-core-compiler/src/bounded-cache.ts:240` | clearing leaves no entry and no tombstone, and the counters as they are |
| `BoundedCache.Cache.Get` | `packages-ts/galerina-core-compiler/src/bounded-cache.ts:132-140` | the object's state and answer are those of the specified lookup |
| `BoundedCache.Cache.Set` | `packages-ts/galerina-core-compiler/src/bounded-cache.ts:146-166` | the object's state and answer are those of the specified offer, eviction included |
| `BoundedCache.Cache.EvictDown` | `packages-ts/galerina-core-compiler/src/bounded-cache.ts:175-184` | the eviction loop reaches the specified state |
| `BoundedCache.Cache.Entomb` | `packages-ts/galerina-core-compiler/src/bounded-cache.ts:198-209` | the tombstone is added last and the oldest beyond the ceiling are forgotten |
| `BoundedCache.Cache.Delete` | `packages-ts/galerina-core-compiler/src/bounded-cache.ts:232-238` | the object's state and answer are those of the specified removal |

## Left out

- Bytecode input: names, numbers and operators of the AST are given already split, trimmed and parsed, operator
  tokens as a datatype; the check for 64-bit scalars is a Boolean given with the flow.
- Bytecode calls: `callExpr` is refused as in the source; `Op.CALL`, `subPrograms` and the cache of compiled flows
  are not modelled.
- I32Arith.DivChecked: IEEE rounding of the quotient is not modelled; the division is taken on real numbers.
- CompiledFlows.CompiledFlowIsCorrect: one direction only for a single flow beyond the stack bound, because a need
  above 256 changes the outcome only of some flows; `StackBoundIsExact` gives both directions over all flows of a need.
  Code length and slot count are taken to be at most 2^31 - 1.
- CompiledCalls.FittingIsExact: for argument lists short enough that a flow reading the last of them has at most
  2^31 - 1 words, and for parameters not named by the keywords `true` and `false`, which the parser refuses. A
  reference call binds a repeated name to its first argument.
- Condense.FindComponents: the locals of the traversal are kept in one record; node names with a NUL character,
  which the source's edge keys could confuse, are not modelled.
- CodeUnitOrder: strings are compared character by character, which is code-unit order for text without surrogates;
  the array sort is modelled as a stable insertion sort.
- The passes over graphs take every edge to join two nodes of the graph, which `CircuitGraph.GraphIsWellFormed`
  gives for resolved circuits; parsing circuits, diagnostics' wording and source locations are not modelled.
- Separation.VerifyDenyArmContainment: the non-allow arms of each decision part are given as a map.
- Terminal vocabularies and decision shapes (`gate-v3-authority.ts:79-116`, `gate-v3-authority.ts:187-215`): single
  filters over lists.
- Escape: assignments whose target is not a plain name, and nested function declarations as closures; `windowIsArenaSafe`
  and `collectRecordFieldTypes` are one filter over declared field types.
- EscapeSoundness.NoEscapeIsSound: says nothing about anonymous records inside a named one, as the source notes.
- EffectClosure.CloseEffects: cycle detection and the topological order come from a graph library and are parameters;
  building direct effects and call targets from the AST is not modelled.
- TransitiveEffects.WalksAgree: the call graph is given; that only declared flows have calls is how the source builds it.
- FlowDependencies: merging the declarations of several files into one list, and counting branches for the complexity.
- FixEdits.ApplyFixEdits: line and column numbers are integers; `computeAutoFix` is one comparison of error counts. For
  a single source on which an insertion is given before a replacement at its start nothing is said about the text
  beyond the splicing itself, because equal characters can hide the loss; `SharedStartIsExact` is over all texts.
- PatternCircuit: reading the pattern text and the name checks; character classes are given from outside.
- CircuitText: control characters other than line feed, carriage return and tab inside a literal, which no admitted
  pattern yields, are written unescaped.
- CanonicalJson: Unicode normal form is a predicate given from outside; UTF-8 decoding, prototype defences, -0 as a
  number of its own, and the field tables of the artifact are not modelled.
- CacheSpec.RunKeeps: weights are real numbers, so the rounding of their sum is not modelled; maxEntries is an integer.
- BoundedCache.Cache.Knew: the counters returned by `stats` and the environment policy are left out.
- Checking snapshots, attestations, registries, the command line and file access.
