/** On which graphs the budget rule (`gate-v3-budget.ts`, verifyBudgetComposition) is right about every
    budget and every ceiling. */
module BudgetRule {
  import opened Reachability
  import opened GateGraph
  import opened DepthFirst
  import opened Condense
  import opened Budget

  ghost predicate SinkAhead(g: Graph, v: string) {
    exists n :: n in g.nodes && IsOutlet(n) && Reach(GraphArcs(g), v, n.id)
  }

  /** The wire lies on a way from IN to an output or terminal. */
  ghost predicate OnWay(g: Graph, e: Edge) {
    e in g.edges && Reach(GraphArcs(g), ROOT, e.from.node) && SinkAhead(g, e.to.node)
  }

  /** No two nodes reach each other, and no wire on a way from IN to an output or terminal leaves a node
      on or behind a cycle; or there is no such way at all. */
  ghost predicate WaysAreSettled(g: Graph) {
    forall e :: OnWay(g, e) ==> MutuallyDistinct(g) && e.from.node in Settled(g)
  }

  /** The rule refuses a ceiling that is not negative exactly when some walk from IN to an output or
      terminal exceeds it. */
  ghost predicate RuleIsExact(g: Graph) {
    forall c: Ceiling :: c.value >= 0 ==> ((MutuallyDistinct(g) && Refused(g, c)) <==> SomeWalkIsOver(g, c.value))
  }

  ghost predicate SomeWalkIsOver(g: Graph, limit: int) {
    exists n, w :: OverBudget(g, n, w, limit)
  }

  /** Every wire of a walk from IN to a node with a sink ahead lies on a way to that sink. */
  lemma {:induction false} WalkIsOnWay(g: Graph, w: seq<Edge>, v: string)
    requires IsWalk(g.edges, w, ROOT, v) && SinkAhead(g, v)
    ensures forall i :: 0 <= i < |w| ==> OnWay(g, w[i])
    decreases |w|
  {
    if w != [] {
      var k := |w| - 1;
      var e := w[k];
      WalkReaches(g.edges, w[..k], ROOT, e.from.node);
      var n :| n in g.nodes && IsOutlet(n) && Reach(GraphArcs(g), v, n.id);
      assert (e.from.node, e.to.node) in GraphArcs(g);
      ArcThenReach(GraphArcs(g), e.from.node, v, n.id);
      WalkIsOnWay(g, w[..k], e.from.node);
      assert forall i :: 0 <= i < k ==> w[..k][i] == w[i];
    }
  }

  /** A walk that exceeds a ceiling is one the rule looks at. */
  lemma OverIsSeen(g: Graph, n: Node, w: seq<Edge>, limit: int)
    requires WaysAreSettled(g) && OverBudget(g, n, w, limit) && limit >= 0
    ensures MutuallyDistinct(g) && SomeWalkExceeds(g, Settled(g), limit)
  {
    ReachSelf(GraphArcs(g), n.id);
    assert SinkAhead(g, n.id);
    WalkIsOnWay(g, w, n.id);
    assert w != [];
    assert OnWay(g, w[0]);
    assert WalkWithin(g.edges, Settled(g), w, n.id);
  }

  lemma SettledIsExact(g: Graph)
    requires WaysAreSettled(g)
    ensures RuleIsExact(g)
  {
    forall c: Ceiling | c.value >= 0 ensures (MutuallyDistinct(g) && Refused(g, c)) <==> SomeWalkIsOver(g, c.value) {
      if SomeWalkIsOver(g, c.value) {
        var n, w :| OverBudget(g, n, w, c.value);
        OverIsSeen(g, n, w, c.value);
      }
      if Refused(g, c) { SeenIsOver(g, c.value); }
    }
  }

  lemma SeenIsOver(g: Graph, limit: int)
    requires SomeWalkExceeds(g, Settled(g), limit)
    ensures SomeWalkIsOver(g, limit)
  {
    var n, w :| n in g.nodes && IsOutlet(n) && WalkWithin(g.edges, Settled(g), w, n.id) && Cost(w) > limit;
    assert OverBudget(g, n, w, limit);
  }

  lemma {:induction false} WalksJoin(edges: seq<Edge>, u: seq<Edge>, w: seq<Edge>, a: string, b: string, c: string)
    requires IsWalk(edges, u, a, b) && IsWalk(edges, w, b, c)
    ensures IsWalk(edges, u + w, a, c) && Cost(u + w) == Cost(u) + Cost(w)
    decreases |w|
  {
    if w == [] { assert u + w == u; } else {
      var k := |w| - 1;
      WalksJoin(edges, u, w[..k], a, b, w[k].from.node);
      assert (u + w)[..|u + w| - 1] == u + w[..k];
    }
  }

  lemma ReachIsWalk(g: Graph, a: string, b: string) returns (w: seq<Edge>)
    requires Reach(GraphArcs(g), a, b)
    ensures IsWalk(g.edges, w, a, b)
  {
    var p :| IsPathFrom(GraphArcs(g), p, a, b);
    w := PathIsWalk(g.edges, p);
  }

  lemma OneEdge(edges: seq<Edge>, e: Edge)
    requires e in edges
    ensures IsWalk(edges, [e], e.from.node, e.to.node) && Cost([e]) == CostOf(e)
  {
    assert [e][..0] == [];
  }

  lemma WayShape(g: Graph, h: Graph, k: nat)
    requires SameShape(g, h) && k < |g.edges|
    ensures OnWay(g, g.edges[k]) <==> OnWay(h, h.edges[k])
  {
    ShapeArcs(g, h);
  }

  /** One unit on a wire on a way exceeds the ceiling 0. */
  lemma ChargedIsOver(g: Graph, k: nat)
    requires k < |g.edges| && OnWay(g, g.edges[k])
    ensures SomeWalkIsOver(Charged(g, k), 0)
  {
    var h := Charged(g, k);
    WayShape(g, h, k);
    var e := h.edges[k];
    var n :| n in h.nodes && IsOutlet(n) && Reach(GraphArcs(h), e.to.node, n.id);
    var u := ReachIsWalk(h, ROOT, e.from.node);
    var w := ReachIsWalk(h, e.to.node, n.id);
    OneEdge(h.edges, e);
    WalksJoin(h.edges, u, [e], ROOT, e.from.node, e.to.node);
    WalksJoin(h.edges, u + [e], w, ROOT, e.to.node, n.id);
    assert OverBudget(h, n, u + [e] + w, 0);
  }

  lemma ChargedIsUnseen(g: Graph, k: nat)
    requires k < |g.edges| && !(MutuallyDistinct(g) && g.edges[k].from.node in Settled(g))
    ensures var h := Charged(g, k); !(MutuallyDistinct(h) && SomeWalkExceeds(h, Settled(h), 0))
  {
    var h := Charged(g, k);
    ShapeArcs(g, h);
    assert MutuallyDistinct(h) ==> MutuallyDistinct(g);
    if g.edges[k].from.node !in Settled(g) {
      forall w, v | WalkWithin(h.edges, Settled(h), w, v) ensures Cost(w) == 0 { SettledWalkIsFree(g, k, w, v); }
    }
  }

  lemma UnsettledIsInexact(g: Graph, k: nat)
    requires k < |g.edges| && OnWay(g, g.edges[k]) && !(MutuallyDistinct(g) && g.edges[k].from.node in Settled(g))
    ensures SameShape(g, Charged(g, k)) && !RuleIsExact(Charged(g, k))
  {
    var c := Ceiling("", 0);
    ChargedIsOver(g, k);
    ChargedIsUnseen(g, k);
    assert !(MutuallyDistinct(Charged(g, k)) && Refused(Charged(g, k), c));
  }

  lemma SettledShape(g: Graph, h: Graph)
    requires SameShape(g, h) && WaysAreSettled(g)
    ensures WaysAreSettled(h)
  {
    ShapeArcs(g, h);
    forall e | OnWay(h, e) ensures MutuallyDistinct(h) && e.from.node in Settled(h) {
      var i :| 0 <= i < |h.edges| && h.edges[i] == e;
      WayShape(g, h, i);
      assert OnWay(g, g.edges[i]);
    }
  }

  /** The rule is right about every budget on the wires and every ceiling that is not negative, if and
      only if no two nodes reach each other and no wire on a way from IN to an output or terminal leaves
      a node on or behind a cycle, or there is no such way. */
  lemma RuleIsExactExactly(g: Graph)
    ensures WaysAreSettled(g) <==> forall h {:trigger SameShape(g, h)} :: SameShape(g, h) ==> RuleIsExact(h)
  {
    if WaysAreSettled(g) {
      forall h | SameShape(g, h) ensures RuleIsExact(h) {
        SettledShape(g, h);
        SettledIsExact(h);
      }
    } else {
      var e :| OnWay(g, e) && !(MutuallyDistinct(g) && e.from.node in Settled(g));
      var k :| 0 <= k < |g.edges| && g.edges[k] == e;
      UnsettledIsInexact(g, k);
    }
  }
}
