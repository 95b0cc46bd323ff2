/** Escape analysis for records (`escape-analysis.ts`): the alias fixpoint, the walk that looks for
    unsafe uses, and their soundness for the executions defined in FlowHeap. */
module Escape {
  import opened Options
  import opened Reachability
  import LinePatterns

  datatype Kind =
    | LetDecl | MutDecl | AssignStmt | Identifier | MemberExpr | CallExpr
    | ReturnStmt | Block | IfStmt | WhileStmt | FieldInit | Other

  datatype Node = Node(kind: Kind, value: Option<string>, children: seq<Node>)

  predicate IsRecordLiteral(n: Node) {
    n.kind == CallExpr && (n.value == Some("#record") || n.value == Some("#record-update"))
  }

  predicate IsBinding(n: Node) {
    n.kind == LetDecl || n.kind == MutDecl || n.kind == AssignStmt
  }

  function UpToColon(s: string): string {
    if s == "" || s[0] == ':' then "" else [s[0]] + UpToColon(s[1..])
  }

  function Trim(s: string): string
    decreases |s|
  {
    if s == "" then s
    else if LinePatterns.IsSpace(s[0]) then Trim(s[1..])
    else if LinePatterns.IsSpace(s[|s| - 1]) then Trim(s[..|s| - 1])
    else s
  }

  /** The bound name, without its type annotation. */
  function BindingName(n: Node): string {
    match n.value
    case Some(text) => Trim(UpToColon(text))
    case None => ""
  }

  predicate IsAlias(n: Node, aliases: set<string>) {
    n.kind == Identifier && n.value.Some? && n.value.value in aliases
  }

  // ----- Aliases -----

  datatype Bind = Bind(name: string, init: Option<Node>)

  function BindOf(n: Node): Bind {
    Bind(BindingName(n), if n.children == [] then None else Some(n.children[0]))
  }

  /** Every binding in the subtree, outermost first. */
  function Binds(n: Node): seq<Bind> {
    (if IsBinding(n) then [BindOf(n)] else []) + BindsOf(n.children)
  }

  function BindsOf(ns: seq<Node>): seq<Bind> {
    if ns == [] then [] else BindsOf(ns[..|ns| - 1]) + Binds(ns[|ns| - 1])
  }

  lemma BindsAppend(ns: seq<Node>, n: Node)
    ensures BindsOf(ns + [n]) == BindsOf(ns) + Binds(n)
  {
    assert (ns + [n])[..|ns|] == ns;
  }

  lemma {:induction false} ChildBinds(ns: seq<Node>, i: nat)
    requires i < |ns|
    ensures forall b :: b in Binds(ns[i]) ==> b in BindsOf(ns)
    decreases |ns|
  {
    if i < |ns| - 1 {
      ChildBinds(ns[..|ns| - 1], i);
    }
  }

  predicate PassesOn(b: Bind) {
    b.name != "" && b.init.Some? && b.init.value.kind == Identifier && b.init.value.value.Some?
  }

  /** An arc from the name on the right of a plain rebinding to the name on the left. */
  ghost function PassArcs(binds: seq<Bind>): Arcs {
    set b | b in binds && PassesOn(b) :: (b.init.value.value.value, b.name)
  }

  /** The aliases of `r`: exactly the names that plain rebindings lead to from `r`. */
  ghost predicate AreAliases(aliases: set<string>, r: string, body: Node) {
    forall x :: x in aliases <==> Reach(PassArcs(Binds(body)), r, x)
  }

  method CollectBinds(n: Node) returns (binds: seq<Bind>)
    ensures binds == Binds(n)
    decreases n
  {
    var inner: seq<Bind> := [];
    for i := 0 to |n.children|
      invariant inner == BindsOf(n.children[..i])
    {
      var more := CollectBinds(n.children[i]);
      BindsAppend(n.children[..i], n.children[i]);
      assert n.children[..i + 1] == n.children[..i] + [n.children[i]];
      inner := inner + more;
    }
    assert n.children[..|n.children|] == n.children;
    binds := (if IsBinding(n) then [BindOf(n)] else []) + inner;
  }

  ghost predicate Followed(binds: seq<Bind>, aliases: set<string>, k: int)
    requires 0 <= k <= |binds|
  {
    forall i :: 0 <= i < k && PassesOn(binds[i]) && binds[i].init.value.value.value in aliases ==> binds[i].name in aliases
  }

  lemma FixpointIsExact(binds: seq<Bind>, aliases: set<string>, r: string)
    requires Followed(binds, aliases, |binds|) && r in aliases
    requires forall x :: x in aliases ==> Reach(PassArcs(binds), r, x)
    ensures forall x :: x in aliases <==> Reach(PassArcs(binds), r, x)
  {
    var arcs := PassArcs(binds);
    forall e | e in arcs && e.0 in aliases ensures e.1 in aliases {
      var b :| b in binds && PassesOn(b) && (b.init.value.value.value, b.name) == e;
      var i :| 0 <= i < |binds| && binds[i] == b;
    }
    forall x | Reach(arcs, r, x) ensures x in aliases { ReachStaysInClosed(arcs, aliases, r, x); }
  }

  ghost function BoundNames(binds: seq<Bind>): set<string> {
    set b | b in binds :: b.name
  }

  /** Grow the alias set until a whole round over the bindings adds nothing. */
  method ComputeAliases(r: string, body: Node) returns (aliases: set<string>)
    ensures AreAliases(aliases, r, body)
  {
    aliases := {r};
    var binds := CollectBinds(body);
    ghost var arcs, names := PassArcs(binds), {r} + BoundNames(binds);
    ReachSelf(arcs, r);
    var changed := true;
    while changed
      invariant r in aliases && aliases <= names
      invariant forall x :: x in aliases ==> Reach(arcs, r, x)
      invariant !changed ==> Followed(binds, aliases, |binds|)
      decreases names - aliases, if changed then 1 else 0
    {
      changed := false;
      ghost var before := aliases;
      for i := 0 to |binds|
        invariant before <= aliases <= names
        invariant changed <==> before != aliases
        invariant forall x :: x in aliases ==> Reach(arcs, r, x)
        invariant !changed ==> Followed(binds, aliases, i)
      {
        var b := binds[i];
        if b.name == "" || b.name in aliases { continue; }
        if PassesOn(b) && b.init.value.value.value in aliases {
          ReachThenArc(arcs, r, b.init.value.value.value, b.name);
          aliases := aliases + {b.name};
          changed := true;
        }
      }
    }
    FixpointIsExact(binds, aliases, r);
  }

  // ----- Unsafe uses -----

  predicate Passthrough(n: Node, aliases: set<string>) {
    IsBinding(n) && n.children != [] && IsAlias(n.children[0], aliases)
  }

  /** Some alias stands where it is neither the receiver of a field read nor the whole right side of a binding. */
  predicate Escapes(n: Node, aliases: set<string>) {
    if n.kind == MemberExpr then
      n.children != [] && !IsAlias(n.children[0], aliases) && Escapes(n.children[0], aliases)
    else
      && !Passthrough(n, aliases)
      && exists i :: 0 <= i < |n.children| && (IsAlias(n.children[i], aliases) || Escapes(n.children[i], aliases))
  }

  /** The walk, which stops looking once something has escaped. */
  method Visit(n: Node, aliases: set<string>, escapedBefore: bool) returns (escaped: bool)
    ensures escaped <==> escapedBefore || Escapes(n, aliases)
    decreases n
  {
    escaped := escapedBefore;
    if escaped { return; }
    if n.kind == MemberExpr {
      if n.children != [] && !IsAlias(n.children[0], aliases) {
        escaped := Visit(n.children[0], aliases, escaped);
      }
      return;
    }
    if Passthrough(n, aliases) { return; }
    for i := 0 to |n.children|
      invariant !escaped && forall j :: 0 <= j < i ==> !IsAlias(n.children[j], aliases)
    {
      if IsAlias(n.children[i], aliases) { return true; }
    }
    for i := 0 to |n.children|
      invariant escaped <==> exists j :: 0 <= j < i && Escapes(n.children[j], aliases)
    {
      escaped := Visit(n.children[i], aliases, escaped);
    }
  }

  lemma AliasesUnique(a: set<string>, b: set<string>, r: string, body: Node)
    requires AreAliases(a, r, body) && AreAliases(b, r, body)
    ensures a == b
  {}
}

/** Executions of flow bodies over a heap of records, for judging the escape analysis. Whatever is not
    a binding, a field read, a record literal or control flow is treated like a call into unseen code. */
module FlowHeap {
  import opened Options
  import opened Escape

  datatype Value = Scalar(n: int) | Handle(id: nat)

  datatype Write = Write(target: nat, field: string, value: Value)

  /** What unseen code answers: a result, and stores into the records it knows. */
  datatype Reply = Reply(result: Value, writes: seq<Write>)

  type Fields = map<string, Value>

  /** `owner` says at which binding a record was allocated, `leaked` what has been handed to unseen
      code or returned, `replies` what unseen code will answer, `stopped` that the flow has ended. */
  datatype State = State(env: Fields, heap: map<nat, Fields>, next: nat, owner: map<nat, string>,
                         leaked: set<nat>, replies: seq<Reply>, stopped: bool)

  // ----- What unseen code knows -----

  /** A chain of records, each held in a field of the one before. */
  ghost predicate IsChain(st: State, p: seq<nat>) {
    p != [] && forall i :: 0 <= i < |p| - 1 ==> InField(st, p[i], p[i + 1])
  }

  ghost predicate InField(st: State, h: nat, inner: nat) {
    h in st.heap && exists f :: f in st.heap[h] && st.heap[h][f] == Handle(inner)
  }

  /** Unseen code knows what has leaked to it and whatever hangs off that. */
  ghost predicate Known(st: State, v: Value) {
    v.Handle? ==> exists p :: IsChain(st, p) && p[0] in st.leaked && p[|p| - 1] == v.id
  }

  function Leak(st: State, vs: seq<Value>): State {
    st.(leaked := st.leaked + set i | 0 <= i < |vs| && vs[i].Handle? :: vs[i].id)
  }

  /** Unseen code may store any value it knows into any record it knows. */
  ghost function ApplyWrites(st: State, ws: seq<Write>): State {
    if ws == [] then st
    else
      var before := ApplyWrites(st, ws[..|ws| - 1]);
      var w := ws[|ws| - 1];
      if Known(before, Handle(w.target)) && Known(before, w.value) && w.target in before.heap
      then before.(heap := before.heap[w.target := before.heap[w.target][w.field := w.value]])
      else before
  }

  ghost function Answer(st: State): (State, Value) {
    if st.replies == [] then (st, Scalar(0))
    else
      var reply := st.replies[0];
      var after := ApplyWrites(st.(replies := st.replies[1..]), reply.writes);
      (after, if Known(after, reply.result) then reply.result else Scalar(0))
  }

  // ----- Execution -----

  function Lookup(st: State, name: Option<string>): Value {
    if name.Some? && name.value in st.env then st.env[name.value] else Scalar(0)
  }

  function ReadField(st: State, v: Value, field: Option<string>): Value {
    if v.Handle? && v.id in st.heap && field.Some? && field.value in st.heap[v.id]
    then st.heap[v.id][field.value]
    else Scalar(0)
  }

  /** An empty name binds nothing. */
  function Assign(st: State, name: string, v: Value): State {
    if name == "" then st else st.(env := st.env[name := v])
  }

  function Allocate(st: State, fields: Fields, owner: Option<string>): State {
    st.(heap := st.heap[st.next := fields],
        next := st.next + 1,
        owner := if owner.Some? then st.owner[st.next := owner.value] else st.owner)
  }

  /** Run `n` for at most `fuel` nested steps; a run that would go on stops there. */
  ghost function Eval(n: Node, st: State, fuel: nat): (State, Value)
    decreases fuel, 1
  {
    if fuel == 0 || st.stopped then (st.(stopped := true), Scalar(0))
    else if n.kind == Identifier then (st, Lookup(st, n.value))
    else if n.kind == MemberExpr then
      if n.children == [] then (st, Scalar(0))
      else
        var (after, v) := Eval(n.children[0], st, fuel - 1);
        (after, ReadField(after, v, n.value))
    else if IsRecordLiteral(n) then EvalRecord(n, st, None, fuel)
    else if IsBinding(n) then EvalBinding(n, st, fuel)
    else if n.kind == IfStmt && |n.children| >= 2 then
      var (after, c) := Eval(n.children[0], st, fuel - 1);
      if c != Scalar(0) then Eval(n.children[1], after, fuel - 1)
      else if |n.children| > 2 then Eval(n.children[2], after, fuel - 1)
      else (after, Scalar(0))
    else if n.kind == WhileStmt && |n.children| >= 2 then
      var (decided, c) := Eval(n.children[0], st, fuel - 1);
      if c == Scalar(0) then (decided, Scalar(0))
      else
        var (after, _) := Eval(n.children[1], decided, fuel - 1);
        Eval(n, after, fuel - 1)
    else
      var (after, vs) := EvalAll(n.children, st, fuel);
      if after.stopped then (after, Scalar(0))
      else if n.kind == Block then (after, if vs == [] then Scalar(0) else vs[|vs| - 1])
      else if n.kind == ReturnStmt then (Leak(after, vs).(stopped := true), Scalar(0))
      else Answer(Leak(after, vs))
  }

  ghost function EvalAll(ns: seq<Node>, st: State, fuel: nat): (State, seq<Value>)
    decreases fuel, 0, |ns|
  {
    if ns == [] then (st, [])
    else if fuel == 0 then (st.(stopped := true), [])
    else
      var (before, vs) := EvalAll(ns[..|ns| - 1], st, fuel);
      var (after, v) := Eval(ns[|ns| - 1], before, fuel - 1);
      (after, vs + [v])
  }

  /** A binding that allocates owns the record it allocates. */
  ghost function EvalBinding(n: Node, st: State, fuel: nat): (State, Value)
    requires fuel > 0
    decreases fuel, 0
  {
    if n.children == [] then (st, Scalar(0))
    else
      var init := n.children[0];
      var (after, v) :=
        if IsRecordLiteral(init) then EvalRecord(init, st, Some(BindingName(n)), fuel - 1) else Eval(init, st, fuel - 1);
      (if after.stopped then after else Assign(after, BindingName(n), v), Scalar(0))
  }

  ghost function EvalRecord(n: Node, st: State, owner: Option<string>, fuel: nat): (State, Value)
    decreases fuel, 0
  {
    var (after, fields) := EvalFields(n.children, st, fuel);
    if after.stopped then (after, Scalar(0)) else (Allocate(after, fields, owner), Handle(after.next))
  }

  /** A field child gives one field; any other child is a base record whose fields are copied. */
  ghost function EvalFields(ns: seq<Node>, st: State, fuel: nat): (State, Fields)
    decreases fuel, 0, |ns|
  {
    if ns == [] then (st, map[])
    else if fuel == 0 then (st.(stopped := true), map[])
    else
      var (before, fields) := EvalFields(ns[..|ns| - 1], st, fuel);
      EvalField(ns[|ns| - 1], before, fields, fuel)
  }

  ghost function EvalField(n: Node, st: State, fields: Fields, fuel: nat): (State, Fields)
    requires fuel > 0
    decreases fuel, 0, 0
  {
    if n.kind == FieldInit && n.children != [] && n.value.Some? then
      var (after, v) := Eval(n.children[0], st, fuel - 1);
      (after, fields[n.value.value := v])
    else
      var (after, v) := Eval(n, st, fuel - 1);
      (after, if v.Handle? && v.id in after.heap then fields + after.heap[v.id] else fields)
  }
}

/** Soundness of the escape analysis. */
module EscapeSoundness {
  import opened Folding
  import opened Options
  import opened Reachability
  import opened Escape
  import opened FlowHeap

  /** The value is a record allocated at the binding `r`. */
  ghost predicate Mine(st: State, r: string, v: Value) {
    v.Handle? && v.id in st.owner && st.owner[v.id] == r
  }

  predicate InRange(st: State, v: Value) {
    v.Handle? ==> v.id < st.next
  }

  /** Only records that exist are mentioned. */
  ghost predicate Bounded(st: State) {
    && (forall x :: x in st.env ==> InRange(st, st.env[x]))
    && (forall h, f :: h in st.heap && f in st.heap[h] ==> InRange(st, st.heap[h][f]))
    && (forall h :: h in st.owner || h in st.leaked ==> h < st.next)
  }

  /** Records allocated at `r` are held by aliases only: in no field, and nowhere outside. */
  ghost predicate HeldByAliases(st: State, r: string, aliases: set<string>) {
    && Bounded(st)
    && (forall x :: x in st.env && Mine(st, r, st.env[x]) ==> x in aliases)
    && (forall h, f :: h in st.heap && f in st.heap[h] ==> !Mine(st, r, st.heap[h][f]))
    && (forall h :: h in st.leaked ==> !Mine(st, r, Handle(h)))
  }

  /** The same, folded. */
  ghost predicate Safe(st: State, r: string, aliases: set<string>) {
    forall key {:trigger Unlock(key)} :: Unlock(key) ==> HeldByAliases(st, r, aliases)
  }

  /** Allocation only adds records; nobody changes who owns one. */
  ghost predicate Later(st: State, st': State) {
    && st.next <= st'.next
    && forall h :: h < st.next ==> (h in st'.owner <==> h in st.owner) && (h in st.owner ==> st'.owner[h] == st.owner[h])
  }

  ghost predicate Clean(st: State, r: string, v: Value) {
    InRange(st, v) && !Mine(st, r, v)
  }

  ghost predicate AllClean(st: State, r: string, vs: seq<Value>) {
    forall i :: 0 <= i < |vs| ==> Clean(st, r, vs[i])
  }

  ghost predicate FieldsClean(st: State, r: string, fields: Fields) {
    forall f :: f in fields ==> Clean(st, r, fields[f])
  }

  // ----- Each change of state -----

  lemma LeakSafe(st: State, r: string, aliases: set<string>, vs: seq<Value>)
    requires Safe(st, r, aliases) && AllClean(st, r, vs)
    ensures Safe(Leak(st, vs), r, aliases) && Later(st, Leak(st, vs))
  {
    assert Unlock(true);
  }

  /** Unseen code never knows a record allocated at `r`. */
  lemma KnownIsClean(st: State, r: string, aliases: set<string>, v: Value)
    requires Safe(st, r, aliases) && Known(st, v)
    ensures Clean(st, r, v)
  {
    assert Unlock(true);
    if v.Handle? {
      var p :| IsChain(st, p) && p[0] in st.leaked && p[|p| - 1] == v.id;
      if |p| > 1 { assert InField(st, p[|p| - 2], p[|p| - 2 + 1]); }
    }
  }

  lemma StoreSafe(st: State, r: string, aliases: set<string>, h: nat, f: string, v: Value)
    requires Safe(st, r, aliases) && h in st.heap && Clean(st, r, v)
    ensures var st' := st.(heap := st.heap[h := st.heap[h][f := v]]); Safe(st', r, aliases) && Later(st, st')
  {
    assert Unlock(true);
  }

  lemma {:induction false} WritesSafe(st: State, r: string, aliases: set<string>, ws: seq<Write>)
    requires Safe(st, r, aliases)
    ensures Safe(ApplyWrites(st, ws), r, aliases) && Later(st, ApplyWrites(st, ws))
  {
    if ws != [] {
      var init, w := ws[..|ws| - 1], ws[|ws| - 1];
      WritesSafe(st, r, aliases, init);
      var before := ApplyWrites(st, init);
      if Known(before, Handle(w.target)) && Known(before, w.value) && w.target in before.heap {
        KnownIsClean(before, r, aliases, w.value);
        StoreSafe(before, r, aliases, w.target, w.field, w.value);
      }
    }
  }

  lemma AnswerSafe(st: State, r: string, aliases: set<string>)
    requires Safe(st, r, aliases)
    ensures Safe(Answer(st).0, r, aliases) && Later(st, Answer(st).0) && Clean(Answer(st).0, r, Answer(st).1)
  {
    if st.replies != [] {
      var rest := st.(replies := st.replies[1..]);
      assert Safe(rest, r, aliases) by { assert Unlock(true); }
      WritesSafe(rest, r, aliases, st.replies[0].writes);
      var after := ApplyWrites(rest, st.replies[0].writes);
      if Known(after, st.replies[0].result) { KnownIsClean(after, r, aliases, st.replies[0].result); }
    }
  }

  lemma AssignSafe(st: State, r: string, aliases: set<string>, name: string, v: Value)
    requires Safe(st, r, aliases) && InRange(st, v)
    requires Mine(st, r, v) ==> name == "" || name in aliases
    ensures Safe(Assign(st, name, v), r, aliases) && Later(st, Assign(st, name, v))
  {
    assert Unlock(true);
  }

  lemma AllocateSafe(st: State, r: string, aliases: set<string>, fields: Fields, owner: Option<string>)
    requires Safe(st, r, aliases) && FieldsClean(st, r, fields)
    ensures var st' := Allocate(st, fields, owner); Safe(st', r, aliases) && Later(st, st')
    ensures InRange(Allocate(st, fields, owner), Handle(st.next))
    ensures Mine(Allocate(st, fields, owner), r, Handle(st.next)) ==> owner == Some(r)
  {
    assert Unlock(true);
    var st' := Allocate(st, fields, owner);
    assert Later(st, st');
    forall v | InRange(st, v) ensures InRange(st', v) && (Mine(st', r, v) <==> Mine(st, r, v)) {}
  }

  lemma StopSafe(st: State, r: string, aliases: set<string>)
    requires Safe(st, r, aliases)
    ensures Safe(st.(stopped := true), r, aliases)
  {
    assert Unlock(true);
  }

  lemma LookupKept(n: Node, st: State, r: string, aliases: set<string>)
    requires Safe(st, r, aliases) && n.kind == Identifier
    ensures InRange(st, Lookup(st, n.value)) && (Mine(st, r, Lookup(st, n.value)) ==> IsAlias(n, aliases))
  {
    assert Unlock(true);
  }

  lemma FieldIsClean(st: State, r: string, aliases: set<string>, v: Value, field: Option<string>)
    requires Safe(st, r, aliases)
    ensures Clean(st, r, ReadField(st, v, field))
  {
    assert Unlock(true);
  }

  lemma BaseIsClean(st: State, r: string, aliases: set<string>, h: nat)
    requires Safe(st, r, aliases) && h in st.heap
    ensures FieldsClean(st, r, st.heap[h])
  {
    assert Unlock(true);
  }

  lemma StayClean(st: State, st': State, r: string, vs: seq<Value>)
    requires AllClean(st, r, vs) && Later(st, st')
    ensures AllClean(st', r, vs)
  {}

  lemma FieldsStayClean(st: State, st': State, r: string, fields: Fields)
    requires FieldsClean(st, r, fields) && Later(st, st')
    ensures FieldsClean(st', r, fields)
  {}

  // ----- Every step of an execution -----

  /** The aliases are closed under the plain rebindings in `n`. */
  ghost predicate Covers(aliases: set<string>, n: Node) {
    forall b :: b in Binds(n) && PassesOn(b) && b.init.value.value.value in aliases ==> b.name in aliases
  }

  /** A node the analysis has cleared, or the bare name of an alias. */
  ghost predicate Cleared(n: Node, aliases: set<string>) {
    Covers(aliases, n) && (IsAlias(n, aliases) || !Escapes(n, aliases))
  }

  /** What running `n` keeps; only the bare name of an alias can have a record of `r` as its value. */
  ghost predicate Kept(n: Node, st: State, st': State, v: Value, r: string, aliases: set<string>) {
    Safe(st', r, aliases) && Later(st, st') && InRange(st', v) && (Mine(st', r, v) ==> IsAlias(n, aliases))
  }

  lemma ChildCleared(n: Node, i: nat, aliases: set<string>)
    requires Cleared(n, aliases) && i < |n.children| && n.kind != Identifier
    requires n.kind == MemberExpr || Passthrough(n, aliases) ==> i == 0
    ensures Cleared(n.children[i], aliases)
    ensures n.kind != MemberExpr && !Passthrough(n, aliases) ==> !IsAlias(n.children[i], aliases)
  {
    ChildBinds(n.children, i);
  }

  /** Running `m` after something else, as the last part of `n`. */
  lemma Relay(n: Node, m: Node, st: State, mid: State, st': State, v: Value, r: string, aliases: set<string>)
    requires Later(st, mid) && Kept(m, mid, st', v, r, aliases) && !IsAlias(m, aliases)
    ensures Kept(n, st, st', v, r, aliases)
  {}

  /** All of them cleared and none the bare name of an alias, folded. */
  ghost predicate AllCleared(ns: seq<Node>, aliases: set<string>) {
    forall key {:trigger Unlock(key)} :: Unlock(key) ==> forall i :: 0 <= i < |ns| ==> Cleared(ns[i], aliases) && !IsAlias(ns[i], aliases)
  }

  lemma ChildrenCleared(n: Node, aliases: set<string>)
    requires Cleared(n, aliases) && n.kind != Identifier && n.kind != MemberExpr && !Passthrough(n, aliases)
    ensures AllCleared(n.children, aliases)
  {
    forall i | 0 <= i < |n.children| ensures Cleared(n.children[i], aliases) && !IsAlias(n.children[i], aliases) {
      ChildCleared(n, i, aliases);
    }
  }

  lemma LastCleared(ns: seq<Node>, aliases: set<string>)
    requires ns != [] && AllCleared(ns, aliases)
    ensures AllCleared(ns[..|ns| - 1], aliases)
    ensures Cleared(ns[|ns| - 1], aliases) && !IsAlias(ns[|ns| - 1], aliases)
  {
    assert Unlock(true);
  }

  lemma LaterTransitive(a: State, b: State, c: State)
    requires Later(a, b) && Later(b, c)
    ensures Later(a, c)
  {}

  lemma {:induction false} EvalKeeps(n: Node, st: State, fuel: nat, r: string, aliases: set<string>)
    requires Safe(st, r, aliases) && Cleared(n, aliases) && r in aliases
    ensures Kept(n, st, Eval(n, st, fuel).0, Eval(n, st, fuel).1, r, aliases)
    decreases fuel, 1
  {
    StopSafe(st, r, aliases);
    if fuel > 0 && !st.stopped {
      if n.kind == Identifier {
        LookupKept(n, st, r, aliases);
      } else if n.kind == MemberExpr {
        if n.children != [] {
          ChildCleared(n, 0, aliases);
          EvalKeeps(n.children[0], st, fuel - 1, r, aliases);
          var (after, v) := Eval(n.children[0], st, fuel - 1);
          FieldIsClean(after, r, aliases, v, n.value);
        }
      } else if IsRecordLiteral(n) {
        RecordKeeps(n, st, None, fuel, r, aliases);
      } else if IsBinding(n) {
        BindingKeeps(n, st, fuel, r, aliases);
      } else if n.kind == IfStmt && |n.children| >= 2 {
        IfKeeps(n, st, fuel, r, aliases);
      } else if n.kind == WhileStmt && |n.children| >= 2 {
        WhileKeeps(n, st, fuel, r, aliases);
      } else {
        OtherKeeps(n, st, fuel, r, aliases);
      }
    }
  }

  lemma {:induction false} IfKeeps(n: Node, st: State, fuel: nat, r: string, aliases: set<string>)
    requires Safe(st, r, aliases) && Cleared(n, aliases) && r in aliases
    requires fuel > 0 && !st.stopped && n.kind == IfStmt && |n.children| >= 2
    ensures Kept(n, st, Eval(n, st, fuel).0, Eval(n, st, fuel).1, r, aliases)
    decreases fuel, 0
  {
    ChildCleared(n, 0, aliases);
    ChildCleared(n, 1, aliases);
    EvalKeeps(n.children[0], st, fuel - 1, r, aliases);
    var (after, c) := Eval(n.children[0], st, fuel - 1);
    if c != Scalar(0) {
      EvalKeeps(n.children[1], after, fuel - 1, r, aliases);
      var (last, v) := Eval(n.children[1], after, fuel - 1);
      Relay(n, n.children[1], st, after, last, v, r, aliases);
    } else if |n.children| > 2 {
      ChildCleared(n, 2, aliases);
      EvalKeeps(n.children[2], after, fuel - 1, r, aliases);
      var (last, v) := Eval(n.children[2], after, fuel - 1);
      Relay(n, n.children[2], st, after, last, v, r, aliases);
    }
  }

  lemma {:induction false} WhileKeeps(n: Node, st: State, fuel: nat, r: string, aliases: set<string>)
    requires Safe(st, r, aliases) && Cleared(n, aliases) && r in aliases
    requires fuel > 0 && !st.stopped && n.kind == WhileStmt && |n.children| >= 2
    ensures Kept(n, st, Eval(n, st, fuel).0, Eval(n, st, fuel).1, r, aliases)
    decreases fuel, 0
  {
    ChildCleared(n, 0, aliases);
    ChildCleared(n, 1, aliases);
    EvalKeeps(n.children[0], st, fuel - 1, r, aliases);
    var (decided, c) := Eval(n.children[0], st, fuel - 1);
    if c != Scalar(0) {
      EvalKeeps(n.children[1], decided, fuel - 1, r, aliases);
      var (after, w) := Eval(n.children[1], decided, fuel - 1);
      Relay(n, n.children[1], st, decided, after, w, r, aliases);
      EvalKeeps(n, after, fuel - 1, r, aliases);
      var (last, v) := Eval(n, after, fuel - 1);
      Relay(n, n, st, after, last, v, r, aliases);
    }
  }

  lemma {:induction false} OtherKeeps(n: Node, st: State, fuel: nat, r: string, aliases: set<string>)
    requires Safe(st, r, aliases) && Cleared(n, aliases) && r in aliases
    requires fuel > 0 && !st.stopped && n.kind != Identifier && n.kind != MemberExpr && !IsRecordLiteral(n) && !IsBinding(n)
    requires !(n.kind == IfStmt && |n.children| >= 2) && !(n.kind == WhileStmt && |n.children| >= 2)
    ensures Kept(n, st, Eval(n, st, fuel).0, Eval(n, st, fuel).1, r, aliases)
    decreases fuel, 0, |n.children| + 1
  {
    ChildrenCleared(n, aliases);
    AllKeep(n.children, st, fuel, r, aliases);
    var (after, vs) := EvalAll(n.children, st, fuel);
    LeakSafe(after, r, aliases, vs);
    StopSafe(Leak(after, vs), r, aliases);
    AnswerSafe(Leak(after, vs), r, aliases);
  }

  lemma {:induction false} AllKeep(ns: seq<Node>, st: State, fuel: nat, r: string, aliases: set<string>)
    requires Safe(st, r, aliases) && r in aliases
    requires AllCleared(ns, aliases)
    ensures var (after, vs) := EvalAll(ns, st, fuel); Safe(after, r, aliases) && Later(st, after) && AllClean(after, r, vs)
    decreases fuel, 0, |ns|
  {
    StopSafe(st, r, aliases);
    if ns != [] && fuel > 0 {
      var init := ns[..|ns| - 1];
      LastCleared(ns, aliases);
      AllKeep(init, st, fuel, r, aliases);
      var (before, vs) := EvalAll(init, st, fuel);
      EvalKeeps(ns[|ns| - 1], before, fuel - 1, r, aliases);
      var (after, v) := Eval(ns[|ns| - 1], before, fuel - 1);
      StayClean(before, after, r, vs);
      LaterTransitive(st, before, after);
    }
  }

  lemma BoundSafe(n: Node, st: State, after: State, v: Value, name: string, r: string, aliases: set<string>)
    requires Safe(after, r, aliases) && Later(st, after) && InRange(after, v)
    requires Mine(after, r, v) ==> name == "" || name in aliases
    ensures Kept(n, st, if after.stopped then after else Assign(after, name, v), Scalar(0), r, aliases)
  {
    AssignSafe(after, r, aliases, name, v);
  }

  lemma {:induction false} BindingKeeps(n: Node, st: State, fuel: nat, r: string, aliases: set<string>)
    requires Safe(st, r, aliases) && Cleared(n, aliases) && r in aliases && fuel > 0 && IsBinding(n)
    ensures Kept(n, st, EvalBinding(n, st, fuel).0, EvalBinding(n, st, fuel).1, r, aliases)
    decreases fuel, 0
  {
    if n.children != [] {
      var init, name := n.children[0], BindingName(n);
      ChildCleared(n, 0, aliases);
      if IsRecordLiteral(init) {
        RecordKeeps(init, st, Some(name), fuel - 1, r, aliases);
        var (after, v) := EvalRecord(init, st, Some(name), fuel - 1);
        BoundSafe(n, st, after, v, name, r, aliases);
      } else {
        EvalKeeps(init, st, fuel - 1, r, aliases);
        var (after, v) := Eval(init, st, fuel - 1);
        assert BindOf(n) in Binds(n);
        BoundSafe(n, st, after, v, name, r, aliases);
      }
    }
  }

  lemma {:induction false} RecordKeeps(n: Node, st: State, owner: Option<string>, fuel: nat, r: string, aliases: set<string>)
    requires Safe(st, r, aliases) && Cleared(n, aliases) && r in aliases && IsRecordLiteral(n)
    ensures var (after, v) := EvalRecord(n, st, owner, fuel);
      Safe(after, r, aliases) && Later(st, after) && InRange(after, v) && (Mine(after, r, v) ==> owner == Some(r))
    decreases fuel, 0, |n.children| + 1
  {
    ChildrenCleared(n, aliases);
    FieldsKeep(n.children, st, fuel, r, aliases);
    var (after, fields) := EvalFields(n.children, st, fuel);
    AllocateSafe(after, r, aliases, fields, owner);
  }

  lemma {:induction false} FieldsKeep(ns: seq<Node>, st: State, fuel: nat, r: string, aliases: set<string>)
    requires Safe(st, r, aliases) && r in aliases
    requires AllCleared(ns, aliases)
    ensures var (after, fields) := EvalFields(ns, st, fuel); Safe(after, r, aliases) && Later(st, after) && FieldsClean(after, r, fields)
    decreases fuel, 0, |ns|
  {
    StopSafe(st, r, aliases);
    if ns != [] && fuel > 0 {
      var init, n := ns[..|ns| - 1], ns[|ns| - 1];
      LastCleared(ns, aliases);
      FieldsKeep(init, st, fuel, r, aliases);
      var (before, fields) := EvalFields(init, st, fuel);
      FieldKeeps(n, before, fields, fuel, r, aliases);
      LaterTransitive(st, before, EvalField(n, before, fields, fuel).0);
    }
  }

  lemma {:induction false} FieldKeeps(n: Node, st: State, fields: Fields, fuel: nat, r: string, aliases: set<string>)
    requires Safe(st, r, aliases) && r in aliases && FieldsClean(st, r, fields) && fuel > 0
    requires Cleared(n, aliases) && !IsAlias(n, aliases)
    ensures var (after, more) := EvalField(n, st, fields, fuel); Safe(after, r, aliases) && Later(st, after) && FieldsClean(after, r, more)
    decreases fuel, 0, 0
  {
    if n.kind == FieldInit && n.children != [] && n.value.Some? {
      ChildCleared(n, 0, aliases);
      EvalKeeps(n.children[0], st, fuel - 1, r, aliases);
      var (after, v) := Eval(n.children[0], st, fuel - 1);
      FieldsStayClean(st, after, r, fields);
    } else {
      EvalKeeps(n, st, fuel - 1, r, aliases);
      var (after, v) := Eval(n, st, fuel - 1);
      FieldsStayClean(st, after, r, fields);
      if v.Handle? && v.id in after.heap { BaseIsClean(after, r, aliases, v.id); }
    }
  }

  // ----- Soundness -----

  /** If the analysis says `r` does not escape, then however long the flow runs and whatever unseen code
      answers, a record allocated at `r` is never returned, passed on or stored in a field, and only the
      aliases of `r` hold it. */
  lemma NoEscapeIsSound(r: string, body: Node, aliases: set<string>, st: State, fuel: nat)
    requires AreAliases(aliases, r, body) && !Escapes(body, aliases)
    requires Bounded(st) && st.owner == map[]
    ensures var (after, v) := Eval(body, st, fuel);
      && (forall h :: h in after.owner && after.owner[h] == r ==> h !in after.leaked)
      && (forall h, f :: h in after.heap && f in after.heap[h] ==> !Mine(after, r, after.heap[h][f]))
      && (forall x :: x in after.env && Mine(after, r, after.env[x]) ==> x in aliases)
      && (Mine(after, r, v) ==> IsAlias(body, aliases))
  {
    ReachSelf(PassArcs(Binds(body)), r);
    forall b | b in Binds(body) && PassesOn(b) && b.init.value.value.value in aliases ensures b.name in aliases {
      ReachThenArc(PassArcs(Binds(body)), r, b.init.value.value.value, b.name);
    }
    assert Safe(st, r, aliases);
    EvalKeeps(body, st, fuel, r, aliases);
    assert Unlock(true);
  }
}
