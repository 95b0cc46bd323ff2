/** Worst-case budgets (`gate-v3-budget.ts`): longest paths from the input frontier by stripping
    nodes without incoming edges, and the ceilings a circuit declares. */
module Budget {
  import opened CodeUnitOrder
  import opened Reachability
  import opened Folding
  import opened GateGraph
  import opened DepthFirst
  import opened Condense

  function CostOf(e: Edge): nat {
    match e.bound
    case Budget(value) => value
    case Decreases(_) => 0
    case NoBound => 0
  }

  // ----- Walks along edges -----

  /** Parallel wires differ in cost, so a walk is a sequence of edges. */
  ghost predicate IsWalk(edges: seq<Edge>, w: seq<Edge>, a: string, b: string) {
    if w == [] then a == b
    else
      var e := w[|w| - 1];
      e in edges && e.to.node == b && IsWalk(edges, w[..|w| - 1], a, e.from.node)
  }

  /** The sum of the budgets on its wires; other wires cost nothing. */
  function Cost(w: seq<Edge>): nat {
    if w == [] then 0
    else
      match w[|w| - 1].bound
      case Budget(value) => Cost(w[..|w| - 1]) + value
      case _ => Cost(w[..|w| - 1])
  }

  /** Every edge of the walk leaves a node of `s`. */
  ghost predicate Within(w: seq<Edge>, s: set<string>) {
    forall i :: 0 <= i < |w| ==> w[i].from.node in s
  }

  ghost predicate WalkWithin(edges: seq<Edge>, s: set<string>, w: seq<Edge>, v: string) {
    IsWalk(edges, w, ROOT, v) && Within(w, s)
  }

  lemma WalkStep(edges: seq<Edge>, s: set<string>, w: seq<Edge>, e: Edge)
    requires WalkWithin(edges, s, w, e.from.node) && e in edges && e.from.node in s
    ensures WalkWithin(edges, s, w + [e], e.to.node) && Cost(w + [e]) == Cost(w) + CostOf(e)
  {
    assert (w + [e])[..|w|] == w;
  }

  lemma {:induction false} WalkReaches(edges: seq<Edge>, w: seq<Edge>, a: string, b: string)
    requires IsWalk(edges, w, a, b)
    ensures Reach(ArcsOf(edges), a, b)
  {
    if w == [] {
      ReachSelf(ArcsOf(edges), a);
    } else {
      var e := w[|w| - 1];
      WalkReaches(edges, w[..|w| - 1], a, e.from.node);
      assert (e.from.node, e.to.node) in ArcsOf(edges);
      ReachThenArc(ArcsOf(edges), a, e.from.node, b);
    }
  }

  lemma {:induction false} PathIsWalk(edges: seq<Edge>, p: seq<string>) returns (w: seq<Edge>)
    requires IsPath(ArcsOf(edges), p)
    ensures IsWalk(edges, w, p[0], p[|p| - 1])
    decreases |p|
  {
    var k := |p| - 1;
    w := [];
    if k > 0 {
      w := PathIsWalk(edges, p[..k]);
      assert (p[k - 1], p[k - 1 + 1]) in ArcsOf(edges);
      var e :| e in edges && e.from.node == p[k - 1] && e.to.node == p[k];
      assert (w + [e])[..|w|] == w;
      w := w + [e];
    }
  }

  // ----- Counting edges -----

  /** The edges into `v` that leave no node of `s`. */
  function InCount(edges: seq<Edge>, s: set<string>, v: string): nat {
    if edges == [] then 0
    else
      var e := edges[|edges| - 1];
      InCount(edges[..|edges| - 1], s, v) + if e.to.node == v && e.from.node !in s then 1 else 0
  }

  function Leaving(edges: seq<Edge>, n: string): seq<Edge> {
    if edges == [] then []
    else
      var e := edges[|edges| - 1];
      if e.from.node == n then Leaving(edges[..|edges| - 1], n) + [e] else Leaving(edges[..|edges| - 1], n)
  }

  lemma {:induction false} LeavingIsExact(edges: seq<Edge>, n: string)
    ensures forall e :: e in Leaving(edges, n) <==> e in edges && e.from.node == n
  {
    if edges != [] {
      LeavingIsExact(edges[..|edges| - 1], n);
      assert edges == edges[..|edges| - 1] + [edges[|edges| - 1]];
    }
  }

  lemma {:induction false} NoneComeIn(edges: seq<Edge>, s: set<string>, v: string)
    ensures InCount(edges, s, v) == 0 <==> forall e :: e in edges && e.to.node == v ==> e.from.node in s
  {
    if edges != [] {
      NoneComeIn(edges[..|edges| - 1], s, v);
      assert edges == edges[..|edges| - 1] + [edges[|edges| - 1]];
    }
  }

  /** Stripping a node takes away the edges that leave it. */
  lemma {:induction false} CountWithout(edges: seq<Edge>, s: set<string>, n: string, v: string)
    requires n !in s
    ensures InCount(edges, s, v) == InCount(edges, s + {n}, v) + InCount(Leaving(edges, n), {}, v)
  {
    if edges != [] {
      var init, e := edges[..|edges| - 1], edges[|edges| - 1];
      CountWithout(init, s, n, v);
      assert (Leaving(init, n) + [e])[..|Leaving(init, n)|] == Leaving(init, n);
    }
  }

  lemma {:induction false} CountFirst(edges: seq<Edge>, v: string)
    requires edges != []
    ensures InCount(edges, {}, v) == InCount(edges[1..], {}, v) + if edges[0].to.node == v then 1 else 0
  {
    if |edges| > 1 {
      var k := |edges| - 1;
      CountFirst(edges[..k], v);
      assert edges[..k][1..] == edges[1..][..k - 1];
      assert edges[1..][k - 1] == edges[k];
    }
  }

  // ----- The state of the stripping -----

  type Counts = map<string, nat>
  type Costs = map<string, nat>

  /** The counters say how many edges still come in: those from nodes not stripped, and the `pending`
      edges of the node being stripped. A node at zero is stripped or queued. */
  ghost predicate Counted(ids: set<string>, edges: seq<Edge>, done: seq<string>, queue: seq<string>, pending: seq<Edge>, indegree: Counts) {
    && indegree.Keys == ids
    && (forall v :: v in ids ==> indegree[v] == InCount(edges, Members(done), v) + InCount(pending, {}, v))
    && (forall v :: v in done + queue <==> v in ids && indegree[v] == 0)
    && Distinct(done + queue)
  }

  /** A stripped node comes after all its predecessors. */
  ghost predicate Ordered(edges: seq<Edge>, done: seq<string>) {
    forall e, j :: e in edges && 0 <= j < |done| && done[j] == e.to.node ==> e.from.node in done[..j]
  }

  /** Each cost is the cost of a walk, and every edge left so far has been relaxed. */
  ghost predicate CostsSound(edges: seq<Edge>, done: set<string>, worst: Costs) {
    forall v :: v in worst ==> HasWalk(edges, done, v, worst[v])
  }

  ghost predicate HasWalk(edges: seq<Edge>, s: set<string>, v: string, cost: nat) {
    exists w :: WalkWithin(edges, s, w, v) && Cost(w) == cost
  }

  ghost predicate Relaxed(edges: seq<Edge>, done: set<string>, pending: seq<Edge>, worst: Costs) {
    && ROOT in worst
    && forall e :: e in edges && e.from.node in done && e !in pending && e.from.node in worst ==>
         e.to.node in worst && worst[e.to.node] >= worst[e.from.node] + CostOf(e)
  }

  ghost predicate Stripping(ids: set<string>, edges: seq<Edge>, done: seq<string>, queue: seq<string>, pending: seq<Edge>, indegree: Counts, worst: Costs) {
    forall key {:trigger Unlock(key)} :: Unlock(key) ==>
      && Counted(ids, edges, done, queue, pending, indegree) && Ordered(edges, done)
      && CostsSound(edges, Members(done), worst) && Relaxed(edges, Members(done), pending, worst)
      && (forall e :: e in pending ==> e in edges && done != [] && e.from.node == done[|done| - 1])
  }

  // ----- The steps -----

  lemma StripBegins(ids: set<string>, edges: seq<Edge>, queue: seq<string>, indegree: Counts)
    requires indegree.Keys == ids && forall v :: v in ids ==> indegree[v] == InCount(edges, {}, v)
    requires Distinct(queue) && forall v :: v in queue <==> v in ids && indegree[v] == 0
    ensures Stripping(ids, edges, [], queue, [], indegree, map[ROOT := 0])
  {
    assert Members([]) == {} && [] + queue == queue;
    assert WalkWithin(edges, {}, [], ROOT) && Cost([]) == 0;
  }

  lemma TakeCounts(ids: set<string>, edges: seq<Edge>, done: seq<string>, queue: seq<string>, indegree: Counts)
    requires queue != [] && Counted(ids, edges, done, queue, [], indegree)
    ensures queue[0] in ids && queue[0] !in done
    ensures Counted(ids, edges, done + [queue[0]], queue[1..], Leaving(edges, queue[0]), indegree)
    ensures forall e :: e in edges && e.to.node == queue[0] ==> e.from.node in done
  {
    var n := queue[0];
    assert (done + queue)[|done|] == n;
    assert n in done + queue;
    assert done + [n] + queue[1..] == done + queue;
    forall i | 0 <= i < |done| ensures done[i] != n { assert (done + queue)[i] == done[i]; }
    assert Members(done + [n]) == Members(done) + {n};
    forall v | v in ids
      ensures indegree[v] == InCount(edges, Members(done + [n]), v) + InCount(Leaving(edges, n), {}, v)
    {
      CountWithout(edges, Members(done), n, v);
    }
    NoneComeIn(edges, Members(done), n);
  }

  lemma TakeCosts(edges: seq<Edge>, done: seq<string>, n: string, worst: Costs)
    requires CostsSound(edges, Members(done), worst) && Relaxed(edges, Members(done), [], worst)
    ensures CostsSound(edges, Members(done + [n]), worst) && Relaxed(edges, Members(done + [n]), Leaving(edges, n), worst)
  {
    LeavingIsExact(edges, n);
    assert Members(done + [n]) == Members(done) + {n};
    forall v | v in worst ensures HasWalk(edges, Members(done + [n]), v, worst[v]) {
      var w :| WalkWithin(edges, Members(done), w, v) && Cost(w) == worst[v];
      assert WalkWithin(edges, Members(done + [n]), w, v);
    }
  }

  lemma TakeOrder(edges: seq<Edge>, done: seq<string>, n: string)
    requires Ordered(edges, done) && forall e :: e in edges && e.to.node == n ==> e.from.node in done
    ensures Ordered(edges, done + [n])
  {
    forall e, j | e in edges && 0 <= j < |done + [n]| && (done + [n])[j] == e.to.node ensures e.from.node in (done + [n])[..j] {
      if j < |done| { assert (done + [n])[..j] == done[..j]; } else { assert (done + [n])[..j] == done; }
    }
  }

  lemma Take(ids: set<string>, edges: seq<Edge>, done: seq<string>, queue: seq<string>, indegree: Counts, worst: Costs)
    requires queue != [] && Stripping(ids, edges, done, queue, [], indegree, worst)
    ensures queue[0] in ids && queue[0] !in done
    ensures Stripping(ids, edges, done + [queue[0]], queue[1..], Leaving(edges, queue[0]), indegree, worst)
  {
    assert Unlock(true);
    TakeCounts(ids, edges, done, queue, indegree);
    TakeCosts(edges, done, queue[0], worst);
    TakeOrder(edges, done, queue[0]);
    LeavingIsExact(edges, queue[0]);
  }

  /** The costs once `e` has been relaxed. */
  ghost function Raised(worst: Costs, e: Edge): Costs {
    if e.from.node in worst && (e.to.node !in worst || worst[e.from.node] + CostOf(e) > worst[e.to.node])
    then worst[e.to.node := worst[e.from.node] + CostOf(e)]
    else worst
  }

  /** One edge less comes into `to`. */
  ghost function Lowered(indegree: Counts, to: string): Counts {
    if to in indegree && indegree[to] > 0 then indegree[to := indegree[to] - 1] else indegree
  }

  ghost function Requeued(queue: seq<string>, indegree: Counts, to: string): seq<string> {
    if to in indegree && indegree[to] == 1 then queue + [to] else queue
  }

  lemma RelaxCounts(ids: set<string>, edges: seq<Edge>, done: seq<string>, queue: seq<string>, pending: seq<Edge>, indegree: Counts)
    requires pending != [] && pending[0].to.node in ids && Counted(ids, edges, done, queue, pending, indegree)
    ensures indegree[pending[0].to.node] > 0 && pending[0].to.node !in done + queue
    ensures Counted(ids, edges, done, Requeued(queue, indegree, pending[0].to.node), pending[1..],
                    Lowered(indegree, pending[0].to.node))
  {
    var to := pending[0].to.node;
    forall v ensures InCount(pending, {}, v) == InCount(pending[1..], {}, v) + if to == v then 1 else 0 {
      CountFirst(pending, v);
    }
    assert to !in done + queue;
    assert done + (queue + [to]) == done + queue + [to];
    AppendDistinct(done + queue, to);
  }

  lemma AppendDistinct(s: seq<string>, x: string)
    requires Distinct(s) && x !in s
    ensures Distinct(s + [x])
  {}

  lemma RelaxCosts(edges: seq<Edge>, done: seq<string>, pending: seq<Edge>, worst: Costs)
    requires pending != [] && CostsSound(edges, Members(done), worst) && Relaxed(edges, Members(done), pending, worst)
    requires pending[0] in edges && pending[0].from.node in done && pending[0].to.node !in done
    ensures CostsSound(edges, Members(done), Raised(worst, pending[0]))
    ensures Relaxed(edges, Members(done), pending[1..], Raised(worst, pending[0]))
  {
    var e := pending[0];
    var worst' := Raised(worst, e);
    forall v | v in worst' ensures HasWalk(edges, Members(done), v, worst'[v]) {
      if v !in worst || worst'[v] != worst[v] {
        assert HasWalk(edges, Members(done), e.from.node, worst[e.from.node]);
        var w :| WalkWithin(edges, Members(done), w, e.from.node) && Cost(w) == worst[e.from.node];
        WalkStep(edges, Members(done), w, e);
      }
    }
    assert pending == [e] + pending[1..];
  }

  /** One pending edge: raise the target's cost, take one off its counter, queue it at zero. */
  lemma Relax(ids: set<string>, edges: seq<Edge>, done: seq<string>, queue: seq<string>, pending: seq<Edge>, indegree: Counts,
              worst: Costs)
    requires Stripping(ids, edges, done, queue, pending, indegree, worst)
    requires pending != [] && pending[0].to.node in ids && indegree.Keys == ids
    ensures indegree[pending[0].to.node] > 0 && pending[0].to.node !in done
    ensures Stripping(ids, edges, done, Requeued(queue, indegree, pending[0].to.node), pending[1..],
                      Lowered(indegree, pending[0].to.node), Raised(worst, pending[0]))
  {
    assert Unlock(true);
    RelaxCounts(ids, edges, done, queue, pending, indegree);
    RelaxCosts(edges, done, pending, worst);
  }

  lemma RelaxAt(ids: set<string>, edges: seq<Edge>, done: seq<string>, queue: seq<string>, out: seq<Edge>, i: nat,
                indegree: Counts, worst: Costs)
    requires i < |out| && out[i].to.node in ids && indegree.Keys == ids
    requires Stripping(ids, edges, done, queue, out[i..], indegree, worst)
    ensures indegree[out[i].to.node] > 0 && out[i].to.node !in done
    ensures Stripping(ids, edges, done, Requeued(queue, indegree, out[i].to.node), out[i + 1..],
                      Lowered(indegree, out[i].to.node), Raised(worst, out[i]))
  {
    assert out[i..][0] == out[i] && out[i..][1..] == out[i + 1..];
    Relax(ids, edges, done, queue, out[i..], indegree, worst);
  }

  // ----- What is never stripped -----

  ghost predicate OnCycle(arcs: Arcs, c: string) {
    exists b :: Reach(arcs, c, b) && (b, c) in arcs
  }

  /** `v` is on a cycle, a self-loop included, or behind one. */
  ghost predicate Behind(arcs: Arcs, v: string) {
    exists c :: OnCycle(arcs, c) && Reach(arcs, c, v)
  }

  ghost function Position(done: seq<string>, v: string): (i: nat)
    requires v in done
    ensures i < |done| && done[i] == v
  {
    var i :| 0 <= i < |done| && done[i] == v;
    i
  }

  /** Going back from a stripped node only meets stripped nodes, each earlier. */
  lemma {:induction false} BackIsEarlier(edges: seq<Edge>, done: seq<string>, p: seq<string>, j: nat) returns (i: nat)
    requires Ordered(edges, done) && IsPath(ArcsOf(edges), p) && j < |done| && p[|p| - 1] == done[j]
    ensures i <= j && done[i] == p[0] && (|p| > 1 ==> i < j)
    decreases |p|
  {
    i := j;
    var k := |p| - 1;
    if k > 0 {
      assert (p[k - 1], p[k - 1 + 1]) in ArcsOf(edges);
      var e :| e in edges && e.from.node == p[k - 1] && e.to.node == p[k];
      var m :| 0 <= m < |done[..j]| && done[..j][m] == p[k - 1];
      i := BackIsEarlier(edges, done, p[..k], m);
    }
  }

  lemma CycleIsNotStripped(edges: seq<Edge>, done: seq<string>, c: string, i: nat)
    requires Ordered(edges, done) && Distinct(done) && i < |done| && done[i] == c
    ensures !OnCycle(ArcsOf(edges), c)
  {
    var arcs := ArcsOf(edges);
    forall b | Reach(arcs, c, b) && (b, c) in arcs ensures false {
      var q :| IsPathFrom(arcs, q, c, b);
      PathConcat(arcs, q, [b, c]);
      var j := BackIsEarlier(edges, done, q + [b, c][1..], i);
    }
  }

  lemma StrippedIsNotBehind(edges: seq<Edge>, done: seq<string>, v: string)
    requires Ordered(edges, done) && Distinct(done) && v in done
    ensures !Behind(ArcsOf(edges), v)
  {
    var arcs := ArcsOf(edges);
    forall c | Reach(arcs, c, v) ensures !OnCycle(arcs, c) {
      var p :| IsPathFrom(arcs, p, c, v);
      var i := BackIsEarlier(edges, done, p, Position(done, v));
      CycleIsNotStripped(edges, done, c, i);
    }
  }

  /** Nodes of `rest` that reach `v`. */
  ghost function Ancestors(arcs: Arcs, rest: set<string>, v: string): set<string> {
    set y | y in rest && Reach(arcs, y, v)
  }

  ghost predicate Entered(arcs: Arcs, rest: set<string>, x: string) {
    exists y :: y in rest && (y, x) in arcs
  }

  /** If every node of a finite set has a predecessor in it, each is behind a cycle. */
  lemma {:induction false} BackForever(arcs: Arcs, rest: set<string>, v: string)
    requires v in rest && forall x :: x in rest ==> Entered(arcs, rest, x)
    ensures Behind(arcs, v)
    decreases Ancestors(arcs, rest, v)
  {
    var p :| p in rest && (p, v) in arcs;
    ReachSelf(arcs, v);
    ReachArc(arcs, p, v);
    if Reach(arcs, v, p) {
      assert OnCycle(arcs, v);
    } else {
      forall y | y in Ancestors(arcs, rest, p) ensures y in Ancestors(arcs, rest, v) {
        ReachThenArc(arcs, y, p, v);
      }
      assert v in Ancestors(arcs, rest, v) && v !in Ancestors(arcs, rest, p);
      BackForever(arcs, rest, p);
      var c :| OnCycle(arcs, c) && Reach(arcs, c, p);
      ReachThenArc(arcs, c, p, v);
    }
  }

  /** The nodes a worst case is carried through: those not behind a cycle. */
  ghost function Settled(g: Graph): set<string> {
    set v | v in Ids(g) && !Behind(GraphArcs(g), v)
  }

  lemma UnstrippedIsEntered(g: Graph, done: seq<string>, indegree: Counts, x: string)
    requires WellFormed(g) && Counted(Ids(g), g.edges, done, [], [], indegree) && x in Ids(g) - Members(done)
    ensures Entered(GraphArcs(g), Ids(g) - Members(done), x)
  {
    assert done + [] == done;
    NoneComeIn(g.edges, Members(done), x);
    var e :| e in g.edges && e.to.node == x && e.from.node !in Members(done);
    assert (e.from.node, x) in GraphArcs(g);
  }

  /** With the queue empty, exactly the nodes not behind a cycle have been stripped. */
  lemma StrippedIsSettled(g: Graph, done: seq<string>, indegree: Counts)
    requires WellFormed(g) && Counted(Ids(g), g.edges, done, [], [], indegree) && Ordered(g.edges, done)
    ensures Members(done) == Settled(g)
  {
    assert done + [] == done;
    var rest := Ids(g) - Members(done);
    forall x | x in rest ensures Entered(GraphArcs(g), rest, x) { UnstrippedIsEntered(g, done, indegree, x); }
    forall v ensures v in done <==> v in Settled(g) {
      if v in done { StrippedIsNotBehind(g.edges, done, v); }
      if v in rest { BackForever(GraphArcs(g), rest, v); }
    }
  }

  // ----- The result -----

  /** Exactly the nodes that a walk through settled nodes leads to, each with the largest cost of such a walk. */
  ghost predicate WorstCosts(edges: seq<Edge>, s: set<string>, worst: Costs) {
    && (forall v :: v in worst ==> HasWalk(edges, s, v, worst[v]))
    && (forall v, w :: WalkWithin(edges, s, w, v) ==> v in worst && Cost(w) <= worst[v])
  }

  lemma {:induction false} WalkIsCovered(edges: seq<Edge>, done: set<string>, worst: Costs, w: seq<Edge>, v: string)
    requires Relaxed(edges, done, [], worst) && WalkWithin(edges, done, w, v)
    ensures v in worst && Cost(w) <= worst[v]
    decreases |w|
  {
    if w != [] { WalkIsCovered(edges, done, worst, w[..|w| - 1], w[|w| - 1].from.node); }
  }

  lemma StripEnds(g: Graph, done: seq<string>, indegree: Counts, worst: Costs)
    requires WellFormed(g) && Stripping(Ids(g), g.edges, done, [], [], indegree, worst)
    ensures WorstCosts(g.edges, Settled(g), worst)
  {
    assert Unlock(true);
    StrippedIsSettled(g, done, indegree);
    forall v, w | WalkWithin(g.edges, Settled(g), w, v) ensures v in worst && Cost(w) <= worst[v] {
      WalkIsCovered(g.edges, Settled(g), worst, w, v);
    }
  }

  ghost predicate Tallied(ids: set<string>, edges: seq<Edge>, indegree: Counts, leaving: map<string, seq<Edge>>) {
    && indegree.Keys == leaving.Keys == ids
    && (forall v :: v in ids ==> indegree[v] == InCount(edges, {}, v))
    && (forall v :: v in ids ==> leaving[v] == Leaving(edges, v))
  }

  lemma TallyEdge(ids: set<string>, edges: seq<Edge>, e: Edge, indegree: Counts, leaving: map<string, seq<Edge>>)
    requires Tallied(ids, edges, indegree, leaving) && e.from.node in ids && e.to.node in ids
    ensures Tallied(ids, edges + [e], indegree[e.to.node := indegree[e.to.node] + 1],
                    leaving[e.from.node := leaving[e.from.node] + [e]])
  {
    assert (edges + [e])[..|edges|] == edges;
  }

  method CountNothing(g: Graph) returns (indegree: Counts, leaving: map<string, seq<Edge>>)
    ensures Tallied(Ids(g), [], indegree, leaving)
  {
    indegree, leaving := map[], map[];
    for i := 0 to |g.nodes|
      invariant indegree.Keys == leaving.Keys == (set j | 0 <= j < i :: g.nodes[j].id)
      invariant forall v :: v in indegree ==> indegree[v] == 0 && leaving[v] == []
    {
      indegree, leaving := indegree[g.nodes[i].id := 0], leaving[g.nodes[i].id := []];
    }
    assert indegree.Keys == Ids(g);
  }

  method CountIncoming(g: Graph) returns (indegree: Counts, leaving: map<string, seq<Edge>>)
    requires WellFormed(g)
    ensures Tallied(Ids(g), g.edges, indegree, leaving)
  {
    indegree, leaving := CountNothing(g);
    for i := 0 to |g.edges|
      invariant Tallied(Ids(g), g.edges[..i], indegree, leaving)
    {
      var e := g.edges[i];
      assert g.edges[..i + 1] == g.edges[..i] + [e] && e in g.edges;
      TallyEdge(Ids(g), g.edges[..i], e, indegree, leaving);
      leaving := leaving[e.from.node := leaving[e.from.node] + [e]];
      indegree := indegree[e.to.node := indegree[e.to.node] + 1];
    }
    assert g.edges[..|g.edges|] == g.edges;
  }

  method StartQueue(g: Graph, indegree: Counts) returns (queue: seq<string>)
    requires indegree.Keys == Ids(g)
    ensures Distinct(queue) && forall v :: v in queue <==> v in Ids(g) && indegree[v] == 0
  {
    queue := [];
    for i := 0 to |g.nodes|
      invariant Distinct(queue)
      invariant forall v :: v in queue <==> v in indegree && indegree[v] == 0 && exists j :: 0 <= j < i && g.nodes[j].id == v
    {
      var id := g.nodes[i].id;
      if indegree[id] == 0 && id !in queue {
        AppendDistinct(queue, id);
        queue := queue + [id];
      }
    }
  }

  /** Relax the edges that leave the node just stripped. */
  method RelaxAll(ids: set<string>, ghost edges: seq<Edge>, ghost done: seq<string>, node: string, out: seq<Edge>,
                  queue0: seq<string>, indegree0: Counts, worst0: Costs)
    returns (queue: seq<string>, indegree: Counts, worst: Costs)
    requires indegree0.Keys == ids && node in done && Stripping(ids, edges, done, queue0, out, indegree0, worst0)
    requires forall i :: 0 <= i < |out| ==> out[i].from.node == node && out[i].to.node in ids
    ensures indegree.Keys == ids && Stripping(ids, edges, done, queue, [], indegree, worst)
  {
    queue, indegree, worst := queue0, indegree0, worst0;
    var here := node in worst;
    var cost := if here then worst[node] else 0;
    assert out[0..] == out;
    for i := 0 to |out|
      invariant indegree.Keys == ids
      invariant Stripping(ids, edges, done, queue, out[i..], indegree, worst)
      invariant here == (node in worst) && (here ==> cost == worst[node])
    {
      var e := out[i];
      var to := e.to.node;
      RelaxAt(ids, edges, done, queue, out, i, indegree, worst);
      ghost var queue', indegree', worst' := Requeued(queue, indegree, to), Lowered(indegree, to), Raised(worst, e);
      if here {
        var candidate := cost + CostOf(e);
        if to !in worst || candidate > worst[to] { worst := worst[to := candidate]; }
      }
      var remaining := indegree[to] - 1;
      indegree := indegree[to := remaining];
      if remaining == 0 { queue := queue + [to]; }
      assert queue == queue' && indegree == indegree' && worst == worst';
    }
    assert out[|out|..] == [];
  }

  /** The worst-case budget of every node, on every graph. */
  method ComposeWorstCaseBudgets(g: Graph) returns (worst: Costs)
    requires WellFormed(g)
    ensures WorstCosts(g.edges, Settled(g), worst)
  {
    var indegree, leaving := CountIncoming(g);
    var queue := StartQueue(g, indegree);
    worst := map[ROOT := 0];
    ghost var done: seq<string> := [];
    StripBegins(Ids(g), g.edges, queue, indegree);
    while queue != []
      invariant indegree.Keys == Ids(g)
      invariant Stripping(Ids(g), g.edges, done, queue, [], indegree, worst)
      decreases Ids(g) - Members(done)
    {
      Take(Ids(g), g.edges, done, queue, indegree, worst);
      var node := queue[0];
      LeavingIsExact(g.edges, node);
      assert Members(done + [node]) == Members(done) + {node};
      done := done + [node];
      queue, indegree, worst := RelaxAll(leaving.Keys, g.edges, done, node, leaving[node], queue[1..], indegree, worst);
    }
    StripEnds(g, done, indegree, worst);
  }

  // ----- Graphs without cycles -----

  ghost predicate Loopless(g: Graph) {
    forall v :: !OnCycle(GraphArcs(g), v)
  }

  /** What the condensation calls acyclic still admits self-loops; this is all it misses. */
  lemma LooplessMeaning(g: Graph)
    requires WellFormed(g)
    ensures Loopless(g) <==> MutuallyDistinct(g) && forall a :: (a, a) !in GraphArcs(g)
  {
    var arcs := GraphArcs(g);
    if Loopless(g) {
      forall a ensures (a, a) !in arcs {
        assert !OnCycle(arcs, a);
        ReachSelf(arcs, a);
      }
      forall a, b | Mutual(arcs, a, b) ensures a == b {
        if a != b { MutualIsCycle(arcs, a, b); }
      }
    } else {
      var c :| OnCycle(arcs, c);
      var b :| Reach(arcs, c, b) && (b, c) in arcs;
      ReachArc(arcs, b, c);
      assert Mutual(arcs, b, c) && b in Ids(g) && c in Ids(g);
    }
  }

  lemma MutualIsCycle(arcs: Arcs, a: string, b: string)
    requires Mutual(arcs, a, b) && a != b
    ensures OnCycle(arcs, a)
  {
    var p :| IsPathFrom(arcs, p, b, a);
    var k := |p| - 1;
    PathPrefix(arcs, p, k - 1);
    assert (p[k - 1], p[k - 1 + 1]) in arcs;
    ReachTransitive(arcs, a, b, p[k - 1]);
  }

  lemma LooplessWalks(g: Graph, w: seq<Edge>, v: string)
    requires WellFormed(g) && Loopless(g)
    ensures WalkWithin(g.edges, Settled(g), w, v) <==> IsWalk(g.edges, w, ROOT, v)
  {
    if IsWalk(g.edges, w, ROOT, v) { LooplessWithin(g, w, v); }
  }

  lemma {:induction false} LooplessWithin(g: Graph, w: seq<Edge>, v: string)
    requires WellFormed(g) && Loopless(g) && IsWalk(g.edges, w, ROOT, v)
    ensures Within(w, Settled(g))
    decreases |w|
  {
    if w != [] {
      var e := w[|w| - 1];
      LooplessWithin(g, w[..|w| - 1], e.from.node);
      assert w == w[..|w| - 1] + [e];
      assert e.from.node in Settled(g);
    }
  }

  ghost predicate WalkAt(edges: seq<Edge>, w: seq<Edge>, v: string, cost: nat) {
    IsWalk(edges, w, ROOT, v) && Cost(w) == cost
  }

  /** Without cycles and self-loops: exactly the reachable nodes, each with the largest cost of any walk. */
  lemma LooplessWorstCosts(g: Graph, worst: Costs)
    requires WellFormed(g) && Loopless(g) && WorstCosts(g.edges, Settled(g), worst)
    ensures forall v :: v in worst <==> Reach(GraphArcs(g), ROOT, v)
    ensures forall v :: v in worst ==> exists w :: WalkAt(g.edges, w, v, worst[v])
    ensures forall v, w :: IsWalk(g.edges, w, ROOT, v) ==> v in worst && Cost(w) <= worst[v]
  {
    forall v, w | IsWalk(g.edges, w, ROOT, v) ensures v in worst && Cost(w) <= worst[v] {
      LooplessWalks(g, w, v);
    }
    forall v ensures v in worst <==> Reach(GraphArcs(g), ROOT, v) {
      if v in worst {
        assert HasWalk(g.edges, Settled(g), v, worst[v]);
        var w :| WalkWithin(g.edges, Settled(g), w, v);
        WalkReaches(g.edges, w, ROOT, v);
      }
      if Reach(GraphArcs(g), ROOT, v) {
        var p :| IsPathFrom(GraphArcs(g), p, ROOT, v);
        var w := PathIsWalk(g.edges, p);
        LooplessWalks(g, w, v);
      }
    }
    forall v | v in worst ensures exists w :: WalkAt(g.edges, w, v, worst[v]) {
      assert HasWalk(g.edges, Settled(g), v, worst[v]);
      var w :| WalkWithin(g.edges, Settled(g), w, v) && Cost(w) == worst[v];
      assert WalkAt(g.edges, w, v, worst[v]);
    }
  }

  // ----- Ceilings -----

  datatype Ceiling = Ceiling(name: string, value: int)

  ghost predicate IsOutlet(n: Node) {
    n.kind == Output || n.kind == Terminal
  }

  /** Some walk through nodes of `s` to an output or terminal costs more than `limit`. */
  ghost predicate SomeWalkExceeds(g: Graph, s: set<string>, limit: int) {
    exists n, w :: n in g.nodes && IsOutlet(n) && WalkWithin(g.edges, s, w, n.id) && Cost(w) > limit
  }

  method WorstSink(g: Graph, worst: Costs) returns (relevant: nat)
    requires WorstCosts(g.edges, Settled(g), worst)
    ensures forall limit :: limit >= 0 ==> (relevant > limit <==> SomeWalkExceeds(g, Settled(g), limit))
  {
    relevant := 0;
    for i := 0 to |g.nodes|
      invariant forall j :: 0 <= j < i && IsOutlet(g.nodes[j]) && g.nodes[j].id in worst ==> worst[g.nodes[j].id] <= relevant
      invariant relevant > 0 ==> exists n :: n in g.nodes && IsOutlet(n) && n.id in worst && worst[n.id] == relevant
    {
      var node := g.nodes[i];
      if node.kind != Output && node.kind != Terminal { continue; }
      if node.id in worst && worst[node.id] > relevant { relevant := worst[node.id]; }
    }
    forall limit | limit >= 0 ensures relevant > limit <==> SomeWalkExceeds(g, Settled(g), limit) {
      if relevant > limit {
        var n :| n in g.nodes && IsOutlet(n) && n.id in worst && worst[n.id] == relevant;
        assert HasWalk(g.edges, Settled(g), n.id, worst[n.id]);
      }
      if SomeWalkExceeds(g, Settled(g), limit) {
        var n, w :| n in g.nodes && IsOutlet(n) && WalkWithin(g.edges, Settled(g), w, n.id) && Cost(w) > limit;
        var j :| 0 <= j < |g.nodes| && g.nodes[j] == n;
      }
    }
  }

  /** A ceiling is refused when it is negative or some walk exceeds it. */
  ghost predicate Refused(g: Graph, c: Ceiling) {
    c.value < 0 || SomeWalkExceeds(g, Settled(g), c.value)
  }

  ghost function RefusedOf(g: Graph, cs: seq<Ceiling>): seq<Ceiling> {
    if cs == [] then []
    else RefusedOf(g, cs[..|cs| - 1]) + if Refused(g, cs[|cs| - 1]) then [cs[|cs| - 1]] else []
  }

  ghost predicate MutuallyDistinct(g: Graph) {
    forall a, b :: a in Ids(g) && b in Ids(g) && Mutual(GraphArcs(g), a, b) ==> a == b
  }

  method VerifyBudgetComposition(g: Graph, ceilings: seq<Ceiling>) returns (refused: seq<Ceiling>)
    requires WellFormed(g)
    ensures refused == if MutuallyDistinct(g) then RefusedOf(g, ceilings) else []
  {
    refused := [];
    if |ceilings| == 0 { return; }
    var c := CondenseGateGraph(g);
    AcyclicMeaning(Ids(g), GraphArcs(g), c);
    if !c.acyclic { return; }
    var worst := ComposeWorstCaseBudgets(g);
    var relevant := WorstSink(g, worst);
    for i := 0 to |ceilings|
      invariant refused == RefusedOf(g, ceilings[..i])
    {
      assert ceilings[..i + 1][..i] == ceilings[..i];
      if relevant <= ceilings[i].value { continue; }
      refused := refused + [ceilings[i]];
    }
    assert ceilings[..|ceilings|] == ceilings;
  }

  ghost predicate OverBudget(g: Graph, n: Node, w: seq<Edge>, limit: int) {
    n in g.nodes && IsOutlet(n) && IsWalk(g.edges, w, ROOT, n.id) && Cost(w) > limit
  }

  /** On a graph without cycles and self-loops a non-negative ceiling is refused exactly when some
      walk from IN to an output or terminal exceeds it. */
  lemma LooplessRefusal(g: Graph, c: Ceiling)
    requires WellFormed(g) && Loopless(g) && c.value >= 0
    ensures Refused(g, c) <==> exists n, w :: OverBudget(g, n, w, c.value)
  {
    if SomeWalkExceeds(g, Settled(g), c.value) {
      var n, w :| n in g.nodes && IsOutlet(n) && WalkWithin(g.edges, Settled(g), w, n.id) && Cost(w) > c.value;
      assert OverBudget(g, n, w, c.value);
    }
    forall n, w | OverBudget(g, n, w, c.value) ensures SomeWalkExceeds(g, Settled(g), c.value) {
      LooplessWalks(g, w, n.id);
    }
  }

  // ----- On which graphs the worst case is right whatever the budgets -----

  /** Every edge that leaves a reachable node leaves a node that is not behind a cycle. */
  ghost predicate Covered(g: Graph) {
    forall e :: e in g.edges && Reach(GraphArcs(g), ROOT, e.from.node) ==> e.from.node in Settled(g)
  }

  /** The same drawing with other annotations on its wires. */
  ghost predicate SameShape(g: Graph, h: Graph) {
    && g.nodes == h.nodes && |g.edges| == |h.edges|
    && forall i :: 0 <= i < |g.edges| ==> g.edges[i].from == h.edges[i].from && g.edges[i].to == h.edges[i].to
  }

  /** The computed map covers every walk from IN. */
  ghost predicate AlwaysExact(g: Graph) {
    forall worst {:trigger WorstCosts(g.edges, Settled(g), worst)} :: WorstCosts(g.edges, Settled(g), worst) ==> CoversAllWalks(g, worst)
  }

  ghost predicate CoversAllWalks(g: Graph, worst: Costs) {
    forall v, w :: IsWalk(g.edges, w, ROOT, v) ==> v in worst && Cost(w) <= worst[v]
  }

  lemma ShapeArcs(g: Graph, h: Graph)
    requires SameShape(g, h)
    ensures GraphArcs(g) == GraphArcs(h) && Settled(g) == Settled(h)
  {
    forall a, b ensures (a, b) in GraphArcs(g) <==> (a, b) in GraphArcs(h) {
      if (a, b) in GraphArcs(g) {
        var e :| e in g.edges && e.from.node == a && e.to.node == b;
        var i :| 0 <= i < |g.edges| && g.edges[i] == e;
        assert h.edges[i] in h.edges;
      }
      if (a, b) in GraphArcs(h) {
        var e :| e in h.edges && e.from.node == a && e.to.node == b;
        var i :| 0 <= i < |h.edges| && h.edges[i] == e;
        assert g.edges[i] in g.edges;
      }
    }
    assert GraphArcs(g) == GraphArcs(h);
  }

  lemma CoveredShape(g: Graph, h: Graph)
    requires SameShape(g, h) && Covered(g)
    ensures Covered(h)
  {
    ShapeArcs(g, h);
    forall e | e in h.edges && Reach(GraphArcs(h), ROOT, e.from.node) ensures e.from.node in Settled(h) {
      var i :| 0 <= i < |h.edges| && h.edges[i] == e;
      assert g.edges[i] in g.edges;
    }
  }

  lemma {:induction false} CoveredWalks(g: Graph, w: seq<Edge>, v: string)
    requires Covered(g) && IsWalk(g.edges, w, ROOT, v)
    ensures Within(w, Settled(g))
    decreases |w|
  {
    if w != [] {
      var e := w[|w| - 1];
      CoveredWalks(g, w[..|w| - 1], e.from.node);
      WalkReaches(g.edges, w[..|w| - 1], ROOT, e.from.node);
      assert w == w[..|w| - 1] + [e];
    }
  }

  lemma CoveredIsExact(g: Graph)
    requires Covered(g)
    ensures AlwaysExact(g)
  {
    forall worst | WorstCosts(g.edges, Settled(g), worst) ensures CoversAllWalks(g, worst) {
      forall v, w | IsWalk(g.edges, w, ROOT, v) ensures v in worst && Cost(w) <= worst[v] {
        CoveredWalks(g, w, v);
        assert WalkWithin(g.edges, Settled(g), w, v);
      }
    }
  }

  /** One unit on the `k`-th wire, nothing on the others. */
  function Charged(g: Graph, k: nat): (h: Graph)
    ensures SameShape(g, h)
  {
    g.(edges := seq(|g.edges|, i requires 0 <= i < |g.edges| => g.edges[i].(bound := Bound.Budget(if i == k then 1 else 0))))
  }

  /** Walks through settled nodes do not use a wire that leaves an unsettled one. */
  lemma {:induction false} SettledWalkIsFree(g: Graph, k: nat, w: seq<Edge>, v: string)
    requires k < |g.edges| && g.edges[k].from.node !in Settled(g)
    requires WalkWithin(Charged(g, k).edges, Settled(g), w, v)
    ensures Cost(w) == 0
    decreases |w|
  {
    if w != [] {
      var e := w[|w| - 1];
      assert e in Charged(g, k).edges;
      var i :| 0 <= i < |g.edges| && Charged(g, k).edges[i] == e;
      SettledWalkIsFree(g, k, w[..|w| - 1], e.from.node);
    }
  }

  /** What the stripping computes for the charged graph: nothing costs anything. */
  ghost function FreeCosts(g: Graph, h: Graph): Costs {
    map v | v in Ids(g) + {ROOT} && HasWalk(h.edges, Settled(g), v, 0) :: 0
  }

  lemma FreeCostsAreWorst(g: Graph, k: nat)
    requires WellFormed(g) && k < |g.edges| && g.edges[k].from.node !in Settled(g)
    ensures WorstCosts(Charged(g, k).edges, Settled(g), FreeCosts(g, Charged(g, k)))
  {
    var h := Charged(g, k);
    forall v, w | WalkWithin(h.edges, Settled(g), w, v) ensures v in FreeCosts(g, h) && Cost(w) == 0 {
      SettledWalkIsFree(g, k, w, v);
      if w != [] {
        var i :| 0 <= i < |h.edges| && h.edges[i] == w[|w| - 1];
        assert g.edges[i] in g.edges;
      }
    }
  }

  lemma UncoveredIsInexact(g: Graph, k: nat)
    requires WellFormed(g) && k < |g.edges| && g.edges[k].from.node !in Settled(g) && Reach(GraphArcs(g), ROOT, g.edges[k].from.node)
    ensures SameShape(g, Charged(g, k)) && !AlwaysExact(Charged(g, k))
  {
    var h := Charged(g, k);
    ShapeArcs(g, h);
    FreeCostsAreWorst(g, k);
    var e := h.edges[k];
    var p :| IsPathFrom(GraphArcs(h), p, ROOT, e.from.node);
    var w := PathIsWalk(h.edges, p);
    assert (w + [e])[..|w|] == w && e in h.edges;
    assert IsWalk(h.edges, w + [e], ROOT, e.to.node) && Cost(w + [e]) >= 1;
    assert !CoversAllWalks(h, FreeCosts(g, h));
  }

  /** The worst case covers every walk, whatever the wires cost, if and only if no wire that can be
      reached leaves a node on or behind a cycle. The cycle itself need not be reachable. */
  lemma ExactExactlyWhenCovered(g: Graph)
    requires WellFormed(g)
    ensures Covered(g) <==> forall h {:trigger SameShape(g, h)} :: SameShape(g, h) ==> AlwaysExact(h)
  {
    if Covered(g) {
      forall h | SameShape(g, h) ensures AlwaysExact(h) {
        CoveredShape(g, h);
        CoveredIsExact(h);
      }
    } else {
      var e :| e in g.edges && Reach(GraphArcs(g), ROOT, e.from.node) && e.from.node !in Settled(g);
      var k :| 0 <= k < |g.edges| && g.edges[k] == e;
      UncoveredIsInexact(g, k);
    }
  }

  // ----- A self-loop hides what lies behind it -----

  function Costly(a: string, b: string, cost: nat): Edge {
    Edge(Endpoint(a, ""), Endpoint(b, ""), Bound.Budget(cost))
  }

  function SelfLoop(): Graph {
    Graph("loop", [Node(ROOT, Input, ""), Node("a", Part, ""), Node("OUT", Output, "")],
          [Costly(ROOT, "a", 7), Costly("a", "a", 1), Costly("a", "OUT", 7)])
  }

  lemma SelfLoopArcs()
    ensures WellFormed(SelfLoop()) && GraphArcs(SelfLoop()) == {(ROOT, "a"), ("a", "a"), ("a", "OUT")}
    ensures Ids(SelfLoop()) == {ROOT, "a", "OUT"}
  {
    var g := SelfLoop();
    assert g.edges[0] in g.edges && g.edges[1] in g.edges && g.edges[2] in g.edges;
    assert g.nodes[0] in g.nodes && g.nodes[1] in g.nodes && g.nodes[2] in g.nodes;
  }

  lemma SelfLoopComponents()
    ensures MutuallyDistinct(SelfLoop())
  {
    var arcs := GraphArcs(SelfLoop());
    SelfLoopArcs();
    assert Closed(arcs, {"OUT"}) && Closed(arcs, {"a", "OUT"});
    forall a, b | a in Ids(SelfLoop()) && b in Ids(SelfLoop()) && Mutual(arcs, a, b) ensures a == b {
      if a in {"a", "OUT"} { ReachStaysInClosed(arcs, {"a", "OUT"}, a, b); }
      if b in {"a", "OUT"} { ReachStaysInClosed(arcs, {"a", "OUT"}, b, a); }
      if a == "OUT" { ReachStaysInClosed(arcs, {"OUT"}, a, b); }
      if b == "OUT" { ReachStaysInClosed(arcs, {"OUT"}, b, a); }
    }
  }

  lemma CostOfOne(e: Edge)
    ensures Cost([e]) == CostOf(e)
  {
    assert [e][..0] == [];
  }

  lemma SelfLoopWalk()
    ensures IsWalk(SelfLoop().edges, [SelfLoop().edges[0], SelfLoop().edges[2]], ROOT, "OUT")
    ensures Cost([SelfLoop().edges[0], SelfLoop().edges[2]]) == 14
  {
    var g := SelfLoop();
    var w := [g.edges[0], g.edges[2]];
    assert w[..1] == [g.edges[0]] && w[..1][..0] == [];
    CostOfOne(g.edges[0]);
    assert Cost(w) == 7 + CostOf(g.edges[2]);
  }

  /** The graph counts as acyclic, the ceiling 10 is exceeded by a walk of 14, and nothing is refused. */
  lemma SelfLoopIsSilent()
    ensures WellFormed(SelfLoop()) && MutuallyDistinct(SelfLoop())
    ensures exists w :: IsWalk(SelfLoop().edges, w, ROOT, "OUT") && Cost(w) == 14
    ensures !Refused(SelfLoop(), Ceiling("max", 10))
  {
    SelfLoopArcs();
    SelfLoopComponents();
    SelfLoopWalk();
    SelfLoopHides();
  }

  lemma OnlyThroughTheLoop(w: seq<Edge>)
    requires IsWalk(SelfLoop().edges, w, ROOT, "OUT")
    ensures |w| > 0 && w[|w| - 1].from.node == "a"
  {
    assert w != [];
    var e := w[|w| - 1];
    assert e in SelfLoop().edges && e.to.node == "OUT";
  }

  lemma LoopIsNotSettled()
    ensures "a" !in Settled(SelfLoop())
  {
    SelfLoopArcs();
    ReachSelf(GraphArcs(SelfLoop()), "a");
    assert OnCycle(GraphArcs(SelfLoop()), "a");
  }

  lemma SelfLoopHides()
    ensures !SomeWalkExceeds(SelfLoop(), Settled(SelfLoop()), 10)
  {
    LoopIsNotSettled();
    forall w: seq<Edge> | IsWalk(SelfLoop().edges, w, ROOT, "OUT") ensures |w| > 0 && w[|w| - 1].from.node == "a" {
      OnlyThroughTheLoop(w);
    }
    assert forall n :: n in SelfLoop().nodes && IsOutlet(n) ==> n.id == "OUT";
  }
}
