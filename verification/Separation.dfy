/** The taint rules of the gate checker (`gate-v3-privacy.ts`, `gate-v3-authority.ts`): breadth-first
    search with cuts removed or with decisions as barriers, and how the rules relate to domination. */
module Separation {
  import opened CodeUnitOrder
  import opened Reachability
  import opened Options
  import opened Folding
  import opened GateGraph
  import opened DepthFirst
  import opened Dominators

  const OUT := "OUT"

  datatype Contract = Contract(cut: bool, tainted: bool, decision: bool, arms: seq<string>, effects: seq<string>)

  type Registry = map<string, Contract>

  // ----- Breadth-first search -----

  /** The arcs a walk may take when it never goes on from a node of `stops`. */
  ghost function OpenArcs(arcs: Arcs, stops: set<string>): Arcs {
    set e | e in arcs && e.0 !in stops
  }

  ghost predicate ReachedFrom(arcs: Arcs, starts: seq<string>, t: string) {
    exists f :: f in starts && Reach(arcs, f, t)
  }

  /** A seen node has been expanded unless it waits in the queue. */
  ghost predicate Expanded(arcs: Arcs, seen: set<string>, waiting: seq<string>) {
    forall e :: e in arcs && e.0 in seen && e.0 !in waiting ==> e.1 in seen
  }

  /** What the search has established. */
  ghost predicate FloodFacts(arcs: Arcs, starts: seq<string>, stops: set<string>, seen: set<string>, queue: seq<string>, waiting: seq<string>) {
    && (forall f :: f in starts ==> f in seen)
    && (forall v :: v in queue ==> v in seen && v !in stops)
    && (forall t :: t in seen ==> ReachedFrom(arcs, starts, t))
    && Expanded(arcs, seen, waiting)
  }

  ghost predicate Flooding(arcs: Arcs, starts: seq<string>, stops: set<string>, seen: set<string>, queue: seq<string>, waiting: seq<string>) {
    forall key {:trigger Unlock(key)} :: Unlock(key) ==> FloodFacts(arcs, starts, stops, seen, queue, waiting)
  }

  lemma FloodBegins(arcs: Arcs, starts: seq<string>, stops: set<string>, queue: seq<string>)
    requires forall v :: v in queue <==> v in starts && v !in stops
    requires forall e :: e in arcs ==> e.0 !in stops
    ensures Flooding(arcs, starts, stops, Members(starts), queue, queue)
  {
    forall v | v in starts ensures ReachedFrom(arcs, starts, v) { ReachSelf(arcs, v); }
  }

  lemma FloodTakes(arcs: Arcs, starts: seq<string>, stops: set<string>, seen: set<string>, queue: seq<string>)
    requires queue != [] && Flooding(arcs, starts, stops, seen, queue, queue)
    ensures queue[0] in seen && queue[0] !in stops
    ensures Flooding(arcs, starts, stops, seen, queue[1..], queue[1..] + [queue[0]])
  {
    assert Unlock(true);
    assert queue == [queue[0]] + queue[1..];
  }

  lemma FloodSees(arcs: Arcs, starts: seq<string>, stops: set<string>, seen: set<string>, queue: seq<string>, node: string, next: string)
    requires Flooding(arcs, starts, stops, seen, queue, queue + [node])
    requires node in seen && (node, next) in arcs && forall e :: e in arcs ==> e.0 !in stops
    ensures var queue' := if next in stops then queue else queue + [next];
      Flooding(arcs, starts, stops, seen + {next}, queue', queue' + [node])
  {
    assert Unlock(true);
    ExtendReached(arcs, starts, node, next);
  }

  lemma FloodLeaves(arcs: Arcs, starts: seq<string>, stops: set<string>, seen: set<string>, queue: seq<string>, node: string)
    requires Flooding(arcs, starts, stops, seen, queue, queue + [node])
    requires forall b :: (node, b) in arcs ==> b in seen
    ensures Flooding(arcs, starts, stops, seen, queue, queue)
  {
    assert Unlock(true);
    forall e | e in arcs && e.0 in seen && e.0 !in queue ensures e.1 in seen {
      if e.0 == node { assert (node, e.1) == e; }
    }
  }

  lemma FloodIsExact(arcs: Arcs, starts: seq<string>, stops: set<string>, seen: set<string>)
    requires Flooding(arcs, starts, stops, seen, [], [])
    ensures forall t :: t in seen <==> ReachedFrom(arcs, starts, t)
  {
    assert Unlock(true);
    assert Closed(arcs, seen);
    forall t | ReachedFrom(arcs, starts, t) ensures t in seen {
      var f :| f in starts && Reach(arcs, f, t);
      ReachStaysInClosed(arcs, seen, f, t);
    }
  }

  lemma ExtendReached(arcs: Arcs, starts: seq<string>, a: string, b: string)
    requires ReachedFrom(arcs, starts, a) && (a, b) in arcs
    ensures ReachedFrom(arcs, starts, b)
  {
    var f :| f in starts && Reach(arcs, f, a);
    ReachThenArc(arcs, f, a, b);
  }

  method OpenStarts(starts: seq<string>, stops: set<string>) returns (queue: seq<string>)
    ensures forall v :: v in queue <==> v in starts && v !in stops
  {
    queue := [];
    for i := 0 to |starts|
      invariant forall v :: v in queue <==> v in starts[..i] && v !in stops
    {
      if starts[i] !in stops { queue := queue + [starts[i]]; }
    }
  }

  /** Everything reached from `starts`; a node of `stops` is recorded but never left. */
  method Flood(succ: Successors, starts: seq<string>, stops: set<string>) returns (seen: set<string>)
    requires Total(succ)
    ensures forall t :: t in seen <==> ReachedFrom(OpenArcs(SuccArcs(succ), stops), starts, t)
  {
    ghost var arcs := OpenArcs(SuccArcs(succ), stops);
    seen := Members(starts);
    ghost var universe := seen + succ.Keys;
    var queue := OpenStarts(starts, stops);
    FloodBegins(arcs, starts, stops, queue);
    while queue != []
      invariant seen <= universe && Flooding(arcs, starts, stops, seen, queue, queue)
      decreases universe - seen, |queue|
    {
      var node := queue[0];
      FloodTakes(arcs, starts, stops, seen, queue);
      ghost var before, size := seen, |queue|;
      queue := queue[1..];
      var targets := SuccOf(succ, node);
      for i := 0 to |targets|
        invariant before <= seen <= universe && (seen == before ==> |queue| < size) && node in seen
        invariant Flooding(arcs, starts, stops, seen, queue, queue + [node])
        invariant forall j :: 0 <= j < i ==> targets[j] in seen
      {
        var next := targets[i];
        if next !in seen {
          FloodSees(arcs, starts, stops, seen, queue, node, next);
          seen := seen + {next};
          if next !in stops { queue := queue + [next]; }
        }
      }
      FloodLeaves(arcs, starts, stops, seen, queue, node);
    }
    FloodIsExact(arcs, starts, stops, seen);
  }

  // ----- What a contract declares -----

  predicate PartDeclares(n: Node, registry: Registry) {
    n.kind == Part && n.component in registry
  }

  function CutSet(g: Graph, registry: Registry): set<string> {
    set n | n in g.nodes && PartDeclares(n, registry) && registry[n.component].cut :: n.id
  }

  function TaintedSet(g: Graph, registry: Registry): set<string> {
    set n | n in g.nodes && PartDeclares(n, registry) && registry[n.component].tainted :: n.id
  }

  /** The sources of taint: the declared ones, or the whole input frontier when none is declared. */
  function Frontier(g: Graph, registry: Registry): set<string> {
    if TaintedSet(g, registry) == {} then {ROOT} else TaintedSet(g, registry)
  }

  method DeclaredCuts(g: Graph, registry: Registry) returns (cuts: seq<string>)
    ensures forall v :: v in cuts <==> v in CutSet(g, registry)
  {
    cuts := [];
    for i := 0 to |g.nodes|
      invariant forall v :: v in cuts <==> v in CutSet(g.(nodes := g.nodes[..i]), registry)
    {
      var n := g.nodes[i];
      assert g.nodes[..i + 1] == g.nodes[..i] + [n];
      if n.kind != Part { continue; }
      if n.component in registry && registry[n.component].cut { cuts := cuts + [n.id]; }
    }
    assert g.nodes[..|g.nodes|] == g.nodes;
  }

  method TaintFrontier(g: Graph, registry: Registry) returns (frontier: seq<string>)
    ensures forall v :: v in frontier <==> v in Frontier(g, registry)
    ensures TaintedSet(g, registry) == {} ==> frontier == [ROOT]
  {
    var tainted: seq<string> := [];
    for i := 0 to |g.nodes|
      invariant forall v :: v in tainted <==> v in TaintedSet(g.(nodes := g.nodes[..i]), registry)
    {
      var n := g.nodes[i];
      assert g.nodes[..i + 1] == g.nodes[..i] + [n];
      if n.kind != Part { continue; }
      if n.component in registry && registry[n.component].tainted { tainted := tainted + [n.id]; }
    }
    assert g.nodes[..|g.nodes|] == g.nodes;
    if |tainted| > 0 {
      assert tainted[0] in TaintedSet(g, registry);
      frontier := tainted;
    } else {
      frontier := [ROOT];
    }
  }

  // ----- Cut separation -----

  ghost predicate Avoids(p: seq<string>, cuts: set<string>) {
    forall i :: 0 <= i < |p| ==> p[i] !in cuts
  }

  /** Every path from a source of taint to `t` contains a cut. */
  ghost predicate Separates(arcs: Arcs, cuts: set<string>, sources: set<string>, t: string) {
    forall f, p :: f in sources && IsPathFrom(arcs, p, f, t) ==> !Avoids(p, cuts)
  }

  /** Taint gets to `t`: it starts there, or flows there past every cut. */
  ghost predicate Leaks(arcs: Arcs, cuts: set<string>, sources: set<string>, t: string) {
    t in sources || !Separates(arcs, cuts, sources, t)
  }

  /** A path among the arcs that touch no cut is a path without a cut, unless it is a single node. */
  lemma KeptPath(edges: seq<Edge>, cuts: set<string>, p: seq<string>)
    requires |p| > 1
    ensures IsPath(ArcsOf(KeptEdges(edges, cuts)), p) <==> IsPath(ArcsOf(edges), p) && Avoids(p, cuts)
  {
    KeptArcs(edges, cuts);
    if IsPath(ArcsOf(KeptEdges(edges, cuts)), p) {
      forall i | 0 <= i < |p| ensures p[i] !in cuts {
        if i < |p| - 1 { assert (p[i], p[i + 1]) in ArcsOf(KeptEdges(edges, cuts)); }
        else { assert (p[i - 1], p[i - 1 + 1]) in ArcsOf(KeptEdges(edges, cuts)); }
      }
    }
  }

  lemma LeakIsReach(edges: seq<Edge>, cuts: set<string>, sources: set<string>, starts: seq<string>, t: string)
    requires forall v :: v in starts <==> v in sources
    ensures ReachedFrom(ArcsOf(KeptEdges(edges, cuts)), starts, t) <==> Leaks(ArcsOf(edges), cuts, sources, t)
  {
    var kept := ArcsOf(KeptEdges(edges, cuts));
    if ReachedFrom(kept, starts, t) {
      var f :| f in starts && Reach(kept, f, t);
      var p :| IsPathFrom(kept, p, f, t);
      if |p| > 1 { KeptPath(edges, cuts, p); }
    }
    if Leaks(ArcsOf(edges), cuts, sources, t) {
      if t in sources {
        ReachSelf(kept, t);
      } else {
        var f, p :| f in sources && IsPathFrom(ArcsOf(edges), p, f, t) && Avoids(p, cuts);
        KeptPath(edges, cuts, p);
        assert IsPathFrom(kept, p, f, t);
      }
    }
  }

  lemma KeptIsTotal(g: Graph, succ: Successors, cuts: set<string>)
    requires WellFormed(g) && Adjacency(succ, Ids(g) - cuts, KeptEdges(g.edges, cuts))
    ensures Total(succ) && OpenArcs(SuccArcs(succ), {}) == ArcsOf(KeptEdges(g.edges, cuts))
  {
    var kept := ArcsOf(KeptEdges(g.edges, cuts));
    AdjacencyArcs(succ, Ids(g) - cuts, KeptEdges(g.edges, cuts));
    KeptArcs(g.edges, cuts);
    forall a, b | (a, b) in kept ensures a in succ && b in succ {
      assert (a, b) in GraphArcs(g);
      var e :| e in g.edges && e.from.node == a && e.to.node == b;
    }
    forall a, b | a in succ && b in succ[a] ensures b in succ {
      assert (a, b) in kept;
    }
    forall e ensures e in OpenArcs(SuccArcs(succ), {}) <==> e in kept {
      assert e == (e.0, e.1);
    }
  }

  /** Everything the taint reaches once the cuts are deleted. */
  method FloodPastCuts(g: Graph, cuts: seq<string>, frontier: seq<string>, ghost sources: set<string>) returns (seen: set<string>)
    requires WellFormed(g) && forall v :: v in frontier <==> v in sources
    ensures forall t :: t in seen <==> Leaks(GraphArcs(g), Members(cuts), sources, t)
  {
    var removed := Members(cuts);
    var succ := BuildSuccessors(g, removed);
    KeptIsTotal(g, succ, removed);
    seen := Flood(succ, frontier, {});
    forall t ensures t in seen <==> Leaks(GraphArcs(g), removed, sources, t) {
      LeakIsReach(g.edges, removed, sources, frontier, t);
    }
  }

  /** Silent when no cut is declared, and otherwise exactly when the cuts separate the taint from OUT. */
  ghost predicate SeparatorSilent(g: Graph, registry: Registry) {
    CutSet(g, registry) == {} || !Leaks(GraphArcs(g), CutSet(g, registry), Frontier(g, registry), OUT)
  }

  method VerifyTaintCutSeparator(g: Graph, registry: Registry) returns (silent: bool)
    requires WellFormed(g)
    ensures silent <==> SeparatorSilent(g, registry)
  {
    var cuts := DeclaredCuts(g, registry);
    assert Members(cuts) == CutSet(g, registry);
    if |cuts| == 0 { return true; }
    assert cuts[0] in CutSet(g, registry);
    var frontier := TaintFrontier(g, registry);
    var seen := FloodPastCuts(g, cuts, frontier, Frontier(g, registry));
    silent := OUT !in seen;
  }

  /** When OUT is not itself a declared cut, the rule is silent exactly when every path contains one. */
  lemma SilentMeansSeparated(g: Graph, registry: Registry)
    requires CutSet(g, registry) != {} && OUT !in CutSet(g, registry)
    ensures SeparatorSilent(g, registry) <==> Separates(GraphArcs(g), CutSet(g, registry), Frontier(g, registry), OUT)
  {
    if OUT in Frontier(g, registry) {
      assert IsPathFrom(GraphArcs(g), [OUT], OUT, OUT) && Avoids([OUT], CutSet(g, registry));
    }
  }

  // ----- Governed sinks -----

  /** The effects that let a value leave the trust boundary. */
  const EGRESS: set<string> := {"network.outbound", "network.external", "email.send", "audit.write"}

  /** A part instance and the effect that makes it a sink. */
  datatype Sink = Sink(instance: string, effect: string)

  function FirstEgress(effects: seq<string>): Option<string> {
    if effects == [] then None
    else if effects[0] in EGRESS then Some(effects[0])
    else FirstEgress(effects[1..])
  }

  function EgressOf(part: PartUse, registry: Registry): Option<string> {
    if part.component in registry then FirstEgress(registry[part.component].effects) else None
  }

  /** Setting an entry of an insertion-ordered map: an instance that is there keeps its place. */
  function PutSink(sinks: seq<Sink>, s: Sink): seq<Sink> {
    if sinks == [] then [s]
    else if sinks[0].instance == s.instance then [s] + sinks[1..]
    else [sinks[0]] + PutSink(sinks[1..], s)
  }

  function SinkTable(parts: seq<PartUse>, registry: Registry): seq<Sink> {
    if parts == [] then []
    else
      var before, part := SinkTable(parts[..|parts| - 1], registry), parts[|parts| - 1];
      match EgressOf(part, registry)
      case None => before
      case Some(effect) => PutSink(before, Sink(part.instance, effect))
  }

  method CollectSinks(parts: seq<PartUse>, registry: Registry) returns (sinks: seq<Sink>)
    ensures sinks == SinkTable(parts, registry)
  {
    sinks := [];
    for i := 0 to |parts|
      invariant sinks == SinkTable(parts[..i], registry)
    {
      var part := parts[i];
      assert parts[..i + 1][..i] == parts[..i];
      if part.component !in registry { continue; }
      var egress := FirstEgress(registry[part.component].effects);
      if egress.Some? { sinks := PutSink(sinks, Sink(part.instance, egress.value)); }
    }
    assert parts[..|parts|] == parts;
  }

  // ----- What the table of sinks holds -----

  /** The `i`-th part is an egress part and there is no later one of the same instance. */
  ghost predicate LastEgress(parts: seq<PartUse>, registry: Registry, i: int)
    requires 0 <= i < |parts|
  {
    && EgressOf(parts[i], registry).Some?
    && forall j :: i < j < |parts| && parts[j].instance == parts[i].instance ==> EgressOf(parts[j], registry).None?
  }

  ghost predicate DistinctInstances(sinks: seq<Sink>) {
    forall i, j :: 0 <= i < j < |sinks| ==> sinks[i].instance != sinks[j].instance
  }

  lemma {:induction false} PutIs(sinks: seq<Sink>, s: Sink)
    requires DistinctInstances(sinks)
    ensures DistinctInstances(PutSink(sinks, s))
    ensures forall t :: t in PutSink(sinks, s) <==> t == s || (t in sinks && t.instance != s.instance)
  {
    if sinks != [] {
      var first, tail := sinks[0], sinks[1..];
      assert sinks == [first] + tail;
      forall t | t in tail ensures t.instance != first.instance {
        var i :| 0 <= i < |tail| && tail[i] == t;
        assert sinks[i + 1] == t;
      }
      if first.instance != s.instance {
        var rest := PutSink(tail, s);
        PutIs(tail, s);
        forall i | 0 <= i < |rest| ensures rest[i].instance != first.instance { assert rest[i] in rest; }
      }
    }
  }

  /** An instance that is there keeps its place, a new one goes last. */
  lemma {:induction false} PutPlaces(sinks: seq<Sink>, s: Sink)
    ensures var put := PutSink(sinks, s);
      && |put| == |sinks| + (if exists i :: 0 <= i < |sinks| && sinks[i].instance == s.instance then 0 else 1)
      && (forall i :: 0 <= i < |sinks| ==> put[i].instance == sinks[i].instance)
      && (|put| > |sinks| ==> put[|sinks|] == s)
  {
    if sinks != [] && sinks[0].instance != s.instance {
      PutPlaces(sinks[1..], s);
      if i :| 0 <= i < |sinks| && sinks[i].instance == s.instance { assert sinks[1..][i - 1].instance == s.instance; }
      if i :| 0 <= i < |sinks[1..]| && sinks[1..][i].instance == s.instance { assert sinks[i + 1].instance == s.instance; }
    }
  }

  /** The sink that the `i`-th part stands for. */
  ghost predicate StandsFor(parts: seq<PartUse>, registry: Registry, i: int, t: Sink) {
    && 0 <= i < |parts| && LastEgress(parts, registry, i)
    && t == Sink(parts[i].instance, EgressOf(parts[i], registry).value)
  }

  ghost predicate IsSinkOf(parts: seq<PartUse>, registry: Registry, t: Sink) {
    exists i :: StandsFor(parts, registry, i, t)
  }

  lemma SinksBefore(parts: seq<PartUse>, registry: Registry, t: Sink)
    requires parts != []
    ensures var k := |parts| - 1; var effect := EgressOf(parts[k], registry);
      IsSinkOf(parts, registry, t) <==>
        if effect.None? then IsSinkOf(parts[..k], registry, t)
        else t == Sink(parts[k].instance, effect.value) || (IsSinkOf(parts[..k], registry, t) && t.instance != parts[k].instance)
  {
    var k := |parts| - 1;
    var init, effect := parts[..k], EgressOf(parts[k], registry);
    forall i | 0 <= i < k
      ensures StandsFor(parts, registry, i, t) <==> StandsFor(init, registry, i, t) && (effect.Some? ==> t.instance != parts[k].instance)
    {
      LastEgressBefore(parts, registry, i);
    }
    if i :| StandsFor(init, registry, i, t) { assert 0 <= i < k; }
    if effect.Some? { assert StandsFor(parts, registry, k, Sink(parts[k].instance, effect.value)); }
  }

  lemma LastEgressBefore(parts: seq<PartUse>, registry: Registry, i: nat)
    requires i < |parts| - 1
    ensures var k := |parts| - 1;
      LastEgress(parts, registry, i) <==>
        LastEgress(parts[..k], registry, i) && (EgressOf(parts[k], registry).Some? ==> parts[k].instance != parts[i].instance)
  {
    var init := parts[..|parts| - 1];
    assert forall j :: 0 <= j < |init| ==> init[j] == parts[j];
  }

  /** Each egress instance stands once, with the first egress effect of its last egress part. */
  lemma {:induction false} SinkTableIs(parts: seq<PartUse>, registry: Registry)
    ensures DistinctInstances(SinkTable(parts, registry))
    ensures forall t :: t in SinkTable(parts, registry) <==> IsSinkOf(parts, registry, t)
  {
    if parts != [] {
      var k := |parts| - 1;
      var init, before := parts[..k], SinkTable(parts[..k], registry);
      SinkTableIs(init, registry);
      var effect := EgressOf(parts[k], registry);
      if effect.Some? { PutIs(before, Sink(parts[k].instance, effect.value)); }
      forall t ensures t in SinkTable(parts, registry) <==> IsSinkOf(parts, registry, t) { SinksBefore(parts, registry, t); }
    } else {
      forall t ensures !IsSinkOf([], registry, t) {}
    }
  }

  /** The `i`-th part is the first egress part of its instance. */
  ghost predicate FirstEgressPart(parts: seq<PartUse>, registry: Registry, i: int) {
    && 0 <= i < |parts| && EgressOf(parts[i], registry).Some?
    && forall j :: 0 <= j < i && parts[j].instance == parts[i].instance ==> EgressOf(parts[j], registry).None?
  }

  /** Some entry of the table is for the instance. */
  ghost predicate Listed(sinks: seq<Sink>, instance: string) {
    exists q :: 0 <= q < |sinks| && sinks[q].instance == instance
  }

  /** One part more: the entries keep their places, and an instance is new if and only if the table grows. */
  lemma TableStep(parts: seq<PartUse>, registry: Registry)
    requires parts != []
    ensures var k := |parts| - 1; var before, after := SinkTable(parts[..k], registry), SinkTable(parts, registry);
      && |before| <= |after| <= |before| + 1
      && (forall q :: 0 <= q < |before| ==> after[q].instance == before[q].instance)
      && (|after| > |before| <==> EgressOf(parts[k], registry).Some? && !Listed(before, parts[k].instance))
      && (|after| > |before| ==> after[|before|].instance == parts[k].instance)
  {
    var k := |parts| - 1;
    var effect := EgressOf(parts[k], registry);
    if effect.Some? { PutPlaces(SinkTable(parts[..k], registry), Sink(parts[k].instance, effect.value)); }
  }

  lemma {:induction false} EgressIsListed(parts: seq<PartUse>, registry: Registry, j: nat)
    requires j < |parts| && EgressOf(parts[j], registry).Some?
    ensures Listed(SinkTable(parts, registry), parts[j].instance)
  {
    var k := |parts| - 1;
    var before, after := SinkTable(parts[..k], registry), SinkTable(parts, registry);
    TableStep(parts, registry);
    if j < k { EgressIsListed(parts[..k], registry, j); }
    if Listed(before, parts[j].instance) {
      var q :| 0 <= q < |before| && before[q].instance == parts[j].instance;
      assert after[q].instance == parts[j].instance;
    }
  }

  lemma FirstStays(parts: seq<PartUse>, registry: Registry, i: nat)
    requires parts != [] && FirstEgressPart(parts[..|parts| - 1], registry, i)
    ensures FirstEgressPart(parts, registry, i)
  {
    var init := parts[..|parts| - 1];
    assert forall j :: 0 <= j < |init| ==> init[j] == parts[j];
  }

  /** When the table has grown, the last part is the first egress part of its instance. */
  lemma NewIsFirst(parts: seq<PartUse>, registry: Registry)
    requires parts != [] && EgressOf(parts[|parts| - 1], registry).Some?
    requires !Listed(SinkTable(parts[..|parts| - 1], registry), parts[|parts| - 1].instance)
    ensures FirstEgressPart(parts, registry, |parts| - 1)
  {
    var k := |parts| - 1;
    forall j | 0 <= j < k && EgressOf(parts[j], registry).Some? ensures parts[j].instance != parts[k].instance {
      EgressIsListed(parts[..k], registry, j);
    }
  }

  /** The part that brought an entry into the table. */
  lemma {:induction false} SinkTableFirst(parts: seq<PartUse>, registry: Registry, p: nat) returns (i: nat)
    requires p < |SinkTable(parts, registry)|
    ensures FirstEgressPart(parts, registry, i) && parts[i].instance == SinkTable(parts, registry)[p].instance
  {
    var k := |parts| - 1;
    TableStep(parts, registry);
    if p < |SinkTable(parts[..k], registry)| {
      i := SinkTableFirst(parts[..k], registry, p);
      FirstStays(parts, registry, i);
    } else {
      NewIsFirst(parts, registry);
      i := k;
    }
  }

  /** The table lists instances in the order of their first egress parts. */
  lemma {:induction false} SinkTableOrder(parts: seq<PartUse>, registry: Registry, p: nat, q: nat) returns (i: nat, j: nat)
    requires p < q < |SinkTable(parts, registry)|
    ensures i < j && FirstEgressPart(parts, registry, i) && FirstEgressPart(parts, registry, j)
    ensures parts[i].instance == SinkTable(parts, registry)[p].instance && parts[j].instance == SinkTable(parts, registry)[q].instance
  {
    var k := |parts| - 1;
    TableStep(parts, registry);
    if q < |SinkTable(parts[..k], registry)| {
      i, j := SinkTableOrder(parts[..k], registry, p, q);
      FirstStays(parts, registry, j);
    } else {
      i := SinkTableFirst(parts[..k], registry, p);
      NewIsFirst(parts, registry);
      j := k;
    }
    FirstStays(parts, registry, i);
  }

  // ----- The rule -----

  /** The sinks of the table that taint gets to, in the order of the table. */
  ghost function Caught(g: Graph, registry: Registry, sinks: seq<Sink>): seq<Sink> {
    if sinks == [] then []
    else
      var last := sinks[|sinks| - 1];
      Caught(g, registry, sinks[..|sinks| - 1])
      + if Leaks(GraphArcs(g), CutSet(g, registry), TaintedSet(g, registry), last.instance) then [last] else []
  }

  /** Refuse every egress part that declared taint gets to; silent when no cut or no taint is declared. */
  method VerifyTaintReachesSink(parts: seq<PartUse>, g: Graph, registry: Registry) returns (refused: seq<Sink>)
    requires WellFormed(g) && ROOT !in TaintedSet(g, registry)
    ensures refused ==
      if CutSet(g, registry) == {} || TaintedSet(g, registry) == {} then [] else Caught(g, registry, SinkTable(parts, registry))
  {
    var cuts := DeclaredCuts(g, registry);
    assert Members(cuts) == CutSet(g, registry);
    if |cuts| == 0 { return []; }
    assert cuts[0] in CutSet(g, registry);
    var sinks := CollectSinks(parts, registry);
    if |sinks| == 0 { return []; }
    var frontier := TaintFrontier(g, registry);
    assert frontier != [] ==> frontier[0] in frontier;
    if |frontier| == 1 && frontier[0] == ROOT { return []; }
    var seen := FloodPastCuts(g, cuts, frontier, Frontier(g, registry));
    refused := [];
    for i := 0 to |sinks|
      invariant refused == Caught(g, registry, sinks[..i])
    {
      assert sinks[..i + 1][..i] == sinks[..i];
      if sinks[i].instance !in seen { continue; }
      refused := refused + [sinks[i]];
    }
    assert sinks[..|sinks|] == sinks;
  }

  lemma {:induction false} CaughtAre(g: Graph, registry: Registry, sinks: seq<Sink>)
    requires DistinctInstances(sinks)
    ensures forall t :: t in Caught(g, registry, sinks) <==>
      t in sinks && Leaks(GraphArcs(g), CutSet(g, registry), TaintedSet(g, registry), t.instance)
    ensures DistinctInstances(Caught(g, registry, sinks))
  {
    if sinks != [] {
      var k := |sinks| - 1;
      CaughtAre(g, registry, sinks[..k]);
      assert sinks == sinks[..k] + [sinks[k]];
      var before := Caught(g, registry, sinks[..k]);
      forall i | 0 <= i < |before| ensures before[i].instance != sinks[k].instance {
        assert before[i] in before;
        assert before[i] in sinks[..k];
      }
    }
  }

  /** The `k`-th effect lets a value leave the trust boundary, and none before it does. */
  ghost predicate FirstOutward(effects: seq<string>, k: int) {
    && 0 <= k < |effects|
    && effects[k] in {"network.outbound", "network.external", "email.send", "audit.write"}
    && forall j :: 0 <= j < k ==> effects[j] !in {"network.outbound", "network.external", "email.send", "audit.write"}
  }

  lemma {:induction false} FirstEgressIs(effects: seq<string>)
    ensures FirstEgress(effects).None? <==> forall k :: !FirstOutward(effects, k)
    ensures forall k :: FirstOutward(effects, k) ==> FirstEgress(effects) == Some(effects[k])
  {
    if effects != [] {
      FirstEgressIs(effects[1..]);
      if effects[0] in EGRESS {
        assert FirstOutward(effects, 0);
      } else {
        forall k ensures FirstOutward(effects, k) <==> k > 0 && FirstOutward(effects[1..], k - 1) {
          assert k > 0 ==> forall j :: 0 < j < |effects| ==> effects[j] == effects[1..][j - 1];
        }
        if FirstEgress(effects).Some? {
          var k :| FirstOutward(effects[1..], k);
          assert FirstOutward(effects, k + 1);
        }
      }
    }
  }

  /** The part declares `effect`, the first of its effects that lets a value leave. */
  ghost predicate Leaves(part: PartUse, registry: Registry, effect: string) {
    part.component in registry && exists k :: FirstOutward(registry[part.component].effects, k) && effect == registry[part.component].effects[k]
  }

  lemma EgressIsLeaving(part: PartUse, registry: Registry, effect: string)
    ensures EgressOf(part, registry) == Some(effect) <==> Leaves(part, registry, effect)
  {
    if part.component in registry {
      var effects := registry[part.component].effects;
      FirstEgressIs(effects);
      if FirstEgress(effects).Some? { var k :| FirstOutward(effects, k); }
    }
  }

  /** The last part of its instance that lets a value leave, by its effect `t.effect`. */
  ghost predicate LastLeaving(parts: seq<PartUse>, registry: Registry, i: int, t: Sink) {
    && 0 <= i < |parts| && parts[i].instance == t.instance && Leaves(parts[i], registry, t.effect)
    && forall j, e :: i < j < |parts| && parts[j].instance == t.instance ==> !Leaves(parts[j], registry, e)
  }

  lemma NothingLeaves(part: PartUse, registry: Registry)
    ensures EgressOf(part, registry).None? <==> forall e :: !Leaves(part, registry, e)
  {
    forall e ensures EgressOf(part, registry) == Some(e) <==> Leaves(part, registry, e) { EgressIsLeaving(part, registry, e); }
    if EgressOf(part, registry).Some? { assert Leaves(part, registry, EgressOf(part, registry).value); }
  }

  lemma StandsForLastLeaving(parts: seq<PartUse>, registry: Registry, i: int, t: Sink)
    ensures StandsFor(parts, registry, i, t) <==> LastLeaving(parts, registry, i, t)
  {
    if 0 <= i < |parts| {
      EgressIsLeaving(parts[i], registry, t.effect);
      forall j | 0 <= j < |parts| ensures EgressOf(parts[j], registry).None? <==> forall e :: !Leaves(parts[j], registry, e) {
        NothingLeaves(parts[j], registry);
      }
    }
  }

  /** One refusal for each instance with an egress effect that taint gets to past every cut, naming the
      first egress effect of its last egress part. */
  lemma SinksAreCaught(parts: seq<PartUse>, g: Graph, registry: Registry)
    ensures DistinctInstances(Caught(g, registry, SinkTable(parts, registry)))
    ensures forall t :: t in Caught(g, registry, SinkTable(parts, registry)) <==>
      (exists i :: LastLeaving(parts, registry, i, t)) && Leaks(GraphArcs(g), CutSet(g, registry), TaintedSet(g, registry), t.instance)
  {
    forall t: Sink, i ensures StandsFor(parts, registry, i, t) <==> LastLeaving(parts, registry, i, t) {
      StandsForLastLeaving(parts, registry, i, t);
    }
    SinkTableIs(parts, registry);
    CaughtAre(g, registry, SinkTable(parts, registry));
  }

  // ----- Containment of refused decisions -----

  /** A way to OUT that leaves no node of `stops`. */
  ghost predicate FreeWay(arcs: Arcs, stops: set<string>, p: seq<string>, a: string) {
    IsPathFrom(arcs, p, a, OUT) && Avoids(p[..|p| - 1], stops)
  }

  /** The value on this wire left a decision on an arm other than its first and can get to OUT
      without going through another decision. `nonAllow` gives each decision part those arms. */
  ghost predicate ArmEscapes(arcs: Arcs, nonAllow: map<string, set<string>>, e: Edge) {
    && e.from.node in nonAllow && e.from.port in nonAllow[e.from.node]
    && exists p :: FreeWay(arcs, nonAllow.Keys, p, e.to.node)
  }

  ghost function EscapingArms(arcs: Arcs, nonAllow: map<string, set<string>>, edges: seq<Edge>): seq<Edge> {
    if edges == [] then []
    else
      var rest := EscapingArms(arcs, nonAllow, edges[..|edges| - 1]);
      if ArmEscapes(arcs, nonAllow, edges[|edges| - 1]) then rest + [edges[|edges| - 1]] else rest
  }

  lemma OpenPath(arcs: Arcs, stops: set<string>, p: seq<string>)
    requires p != []
    ensures IsPath(OpenArcs(arcs, stops), p) <==> IsPath(arcs, p) && Avoids(p[..|p| - 1], stops)
  {
    if IsPath(OpenArcs(arcs, stops), p) {
      var init := p[..|p| - 1];
      forall i | 0 <= i < |init| ensures init[i] !in stops {
        assert (p[i], p[i + 1]) in OpenArcs(arcs, stops);
      }
    }
    if IsPath(arcs, p) && Avoids(p[..|p| - 1], stops) {
      forall i | 0 <= i < |p| - 1 ensures (p[i], p[i + 1]) in OpenArcs(arcs, stops) {
        assert p[..|p| - 1][i] == p[i];
      }
    }
  }

  lemma EscapeIsFlood(arcs: Arcs, nonAllow: map<string, set<string>>, e: Edge)
    requires e.from.node in nonAllow && e.from.port in nonAllow[e.from.node]
    ensures ArmEscapes(arcs, nonAllow, e) <==> ReachedFrom(OpenArcs(arcs, nonAllow.Keys), [e.to.node], OUT)
  {
    var open := OpenArcs(arcs, nonAllow.Keys);
    if ArmEscapes(arcs, nonAllow, e) {
      var p :| FreeWay(arcs, nonAllow.Keys, p, e.to.node);
      OpenPath(arcs, nonAllow.Keys, p);
      assert IsPathFrom(open, p, e.to.node, OUT);
      assert e.to.node in [e.to.node];
    }
    if ReachedFrom(open, [e.to.node], OUT) {
      var p :| IsPathFrom(open, p, e.to.node, OUT);
      OpenPath(arcs, nonAllow.Keys, p);
      assert FreeWay(arcs, nonAllow.Keys, p, e.to.node);
    }
  }

  method VerifyDenyArmContainment(g: Graph, nonAllow: map<string, set<string>>) returns (refused: seq<Edge>)
    requires WellFormed(g)
    ensures refused == EscapingArms(GraphArcs(g), nonAllow, g.edges)
  {
    refused := [];
    var succ := BuildSuccessors(g, {});
    KeptNothingRemoved(g.edges);
    SuccessorsAreArcs(g, succ);
    for i := 0 to |g.edges|
      invariant refused == EscapingArms(GraphArcs(g), nonAllow, g.edges[..i])
    {
      var e := g.edges[i];
      assert g.edges[..i + 1][..i] == g.edges[..i];
      if e.from.node in nonAllow && e.from.port in nonAllow[e.from.node] {
        var seen := Flood(succ, [e.to.node], nonAllow.Keys);
        EscapeIsFlood(GraphArcs(g), nonAllow, e);
        if OUT in seen { refused := refused + [e]; }
      }
    }
    assert g.edges[..|g.edges|] == g.edges;
  }

  /** With no refusal, a value that left on a non-allow arm passes another decision on every way to OUT. */
  lemma {:induction false} ContainedArmsAreRedecided(arcs: Arcs, nonAllow: map<string, set<string>>, edges: seq<Edge>,
                                                     e: Edge, p: seq<string>)
    requires EscapingArms(arcs, nonAllow, edges) == [] && e in edges
    requires e.from.node in nonAllow && e.from.port in nonAllow[e.from.node] && IsPathFrom(arcs, p, e.to.node, OUT)
    ensures exists i :: 0 <= i < |p| - 1 && p[i] in nonAllow
  {
    var k := |edges| - 1;
    if e != edges[k] {
      assert edges == edges[..k] + [edges[k]];
      ContainedArmsAreRedecided(arcs, nonAllow, edges[..k], e, p);
    } else {
      assert !FreeWay(arcs, nonAllow.Keys, p, e.to.node);
      var i :| 0 <= i < |p[..|p| - 1]| && p[..|p| - 1][i] in nonAllow;
      assert p[i] in nonAllow;
    }
  }

  // ----- Cut domination -----

  /** The rule's own condition: no obligation, no way out, one cut above OUT, or the separator agrees. */
  ghost predicate DominationSilent(g: Graph, registry: Registry) {
    || CutSet(g, registry) == {} || !Reach(GraphArcs(g), ROOT, OUT)
    || (exists c :: c in CutSet(g, registry) && StrictlyDominates(GraphArcs(g), c, OUT))
    || SeparatorSilent(g, registry)
  }

  method VerifyCutDominatesEgress(g: Graph, registry: Registry) returns (silent: bool)
    requires WellFormed(g)
    ensures silent <==> DominationSilent(g, registry)
  {
    var cuts := DeclaredCuts(g, registry);
    if |cuts| == 0 { return true; }
    assert cuts[0] in CutSet(g, registry);
    var idom := ComputeDominators(g);
    if OUT !in idom { return true; }
    var above := DominatorsOf(OUT, idom, GraphArcs(g));
    for i := 0 to |cuts|
      invariant forall j :: 0 <= j < i ==> cuts[j] !in above
    {
      if cuts[i] in above { return true; }
    }
    silent := VerifyTaintCutSeparator(g, registry);
  }

  /** A cut that dominates OUT separates it from the input frontier. */
  lemma DominatingCutSeparates(arcs: Arcs, cuts: set<string>, c: string)
    requires c in cuts && StrictlyDominates(arcs, c, OUT)
    ensures Separates(arcs, cuts, {ROOT}, OUT)
  {
    forall p | IsPathFrom(arcs, p, ROOT, OUT) ensures !Avoids(p, cuts) {
      assert c in p;
    }
  }

  /** With a single cut the two notions agree: it separates OUT from the input frontier exactly when
      OUT is unreachable or has the cut strictly above it. */
  lemma OneCutAgreesWithDomination(arcs: Arcs, c: string)
    requires c != OUT
    ensures Separates(arcs, {c}, {ROOT}, OUT) <==> !Reach(arcs, ROOT, OUT) || StrictlyDominates(arcs, c, OUT)
  {
    if Separates(arcs, {c}, {ROOT}, OUT) && Reach(arcs, ROOT, OUT) {
      forall p | IsPathFrom(arcs, p, ROOT, OUT) ensures c in p {
        assert !Avoids(p, {c});
      }
    }
    if StrictlyDominates(arcs, c, OUT) { DominatingCutSeparates(arcs, {c}, c); }
  }

  /** With no taint declared, the domination rule never says more or less than the separator. */
  lemma RulesAgreeAtTheFrontier(g: Graph, registry: Registry)
    requires TaintedSet(g, registry) == {} && OUT !in CutSet(g, registry)
    ensures DominationSilent(g, registry) <==> SeparatorSilent(g, registry)
  {
    var arcs, cuts := GraphArcs(g), CutSet(g, registry);
    if c :| c in cuts && StrictlyDominates(arcs, c, OUT) { DominatingCutSeparates(arcs, cuts, c); }
    if cuts != {} { SilentMeansSeparated(g, registry); }
  }

  /** With taint declared behind the cut they differ: here the cut dominates OUT and the taint leaks. */
  lemma TaintBehindTheCut()
    ensures var g := LateTaint();
      var registry := map["cut" := Contract(true, false, false, [], []), "src" := Contract(false, true, false, [], [])];
      DominationSilent(g, registry) && !SeparatorSilent(g, registry)
  {
    var g := LateTaint();
    var registry := map["cut" := Contract(true, false, false, [], []), "src" := Contract(false, true, false, [], [])];
    var arcs := GraphArcs(g);
    assert g.nodes[1] in g.nodes && g.nodes[2] in g.nodes;
    assert CutSet(g, registry) == {"c"};
    assert TaintedSet(g, registry) == {"t"};
    LateTaintArcs();
    assert IsPathFrom(arcs, ["t", OUT], "t", OUT) && Avoids(["t", OUT], {"c"});
    assert IsPathFrom(arcs, [ROOT, "c", "t", OUT], ROOT, OUT);
    forall p | IsPathFrom(arcs, p, ROOT, OUT) ensures "c" in p {
      assert |p| > 1;
      assert (p[0], p[1]) in arcs;
    }
    assert StrictlyDominates(arcs, "c", OUT);
  }

  function Wire(a: string, b: string): Edge {
    Edge(Endpoint(a, ""), Endpoint(b, ""), NoBound)
  }

  function LateTaint(): Graph {
    Graph("late", [Node(ROOT, Input, ""), Node("c", Part, "cut"), Node("t", Part, "src"), Node(OUT, Output, "")],
          [Wire(ROOT, "c"), Wire("c", "t"), Wire("t", OUT)])
  }

  lemma LateTaintArcs()
    ensures GraphArcs(LateTaint()) == {(ROOT, "c"), ("c", "t"), ("t", OUT)}
  {
    var es := LateTaint().edges;
    assert es[0] in es && es[1] in es && es[2] in es;
  }
}
