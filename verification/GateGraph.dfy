/** The graph every semantic pass reads (`gate-v3-graph.ts`), and the adjacency the passes build first. */
module GateGraph {
  import opened Reachability

  datatype NodeKind = Input | Output | Part | Terminal

  datatype Node = Node(id: string, kind: NodeKind, component: string)

  datatype Endpoint = Endpoint(node: string, port: string)

  /** A wire's annotation: a cost, the name of a variant, or none. */
  datatype Bound = Budget(value: nat) | Decreases(variant: string) | NoBound

  datatype Edge = Edge(from: Endpoint, to: Endpoint, bound: Bound)

  /** A part of a circuit and the component, with its version, that it uses. */
  datatype PartUse = PartUse(instance: string, component: string)

  datatype Graph = Graph(circuit: string, nodes: seq<Node>, edges: seq<Edge>)

  function Ids(g: Graph): set<string> {
    set n | n in g.nodes :: n.id
  }

  function ArcsOf(edges: seq<Edge>): Arcs {
    set e | e in edges :: (e.from.node, e.to.node)
  }

  function GraphArcs(g: Graph): Arcs {
    ArcsOf(g.edges)
  }

  /** Every wire joins two nodes of the graph; the passes rely on it. */
  ghost predicate WellFormed(g: Graph) {
    forall e :: e in g.edges ==> e.from.node in Ids(g) && e.to.node in Ids(g)
  }

  type Successors = map<string, seq<string>>

  /** The targets of the edges leaving `a`, in edge order. */
  function Targets(edges: seq<Edge>, a: string): seq<string> {
    if edges == [] then []
    else
      var rest := Targets(edges[..|edges| - 1], a);
      var last := edges[|edges| - 1];
      if last.from.node == a then rest + [last.to.node] else rest
  }

  lemma {:induction false} TargetsAreArcs(edges: seq<Edge>, a: string, b: string)
    ensures b in Targets(edges, a) <==> (a, b) in ArcsOf(edges)
  {
    if edges != [] {
      var init, last := edges[..|edges| - 1], edges[|edges| - 1];
      TargetsAreArcs(init, a, b);
      assert edges == init + [last];
      assert (a, b) in ArcsOf(edges) <==> (a, b) in ArcsOf(init) || (last.from.node == a && last.to.node == b);
    }
  }

  /** The adjacency lists of the nodes that are kept, over the edges between them. */
  ghost predicate Adjacency(succ: Successors, ids: set<string>, edges: seq<Edge>) {
    && succ.Keys == ids
    && forall a :: a in ids ==> succ[a] == Targets(edges, a)
  }

  function KeptEdges(edges: seq<Edge>, removed: set<string>): seq<Edge> {
    if edges == [] then []
    else
      var rest := KeptEdges(edges[..|edges| - 1], removed);
      var last := edges[|edges| - 1];
      if last.from.node in removed || last.to.node in removed then rest else rest + [last]
  }

  lemma {:induction false} KeptArcs(edges: seq<Edge>, removed: set<string>)
    ensures forall a, b :: (a, b) in ArcsOf(KeptEdges(edges, removed)) <==>
      (a, b) in ArcsOf(edges) && a !in removed && b !in removed
    ensures forall e :: e in KeptEdges(edges, removed) ==> e in edges
  {
    if edges != [] {
      var init, last := edges[..|edges| - 1], edges[|edges| - 1];
      KeptArcs(init, removed);
      assert edges == init + [last];
      var kept := KeptEdges(init, removed);
      forall a, b ensures (a, b) in ArcsOf(KeptEdges(edges, removed)) <==>
        (a, b) in ArcsOf(edges) && a !in removed && b !in removed
      {
        assert (a, b) in ArcsOf(edges) <==> (a, b) in ArcsOf(init) || (last.from.node == a && last.to.node == b);
        assert (a, b) in ArcsOf(kept + [last]) <==> (a, b) in ArcsOf(kept) || (last.from.node == a && last.to.node == b);
      }
    }
  }

  lemma KeptNothingRemoved(edges: seq<Edge>)
    ensures KeptEdges(edges, {}) == edges
  {
    if edges != [] {
      KeptNothingRemoved(edges[..|edges| - 1]);
      assert edges == edges[..|edges| - 1] + [edges[|edges| - 1]];
    }
  }

  /** Build adjacency lists with every removed node left out; an edge from an unknown node is skipped. */
  method BuildSuccessors(g: Graph, removed: set<string>) returns (succ: Successors)
    ensures Adjacency(succ, Ids(g) - removed, KeptEdges(g.edges, removed))
  {
    succ := map[];
    for i := 0 to |g.nodes|
      invariant succ.Keys == (set j | 0 <= j < i && g.nodes[j].id !in removed :: g.nodes[j].id)
      invariant forall a :: a in succ ==> succ[a] == []
    {
      if g.nodes[i].id !in removed {
        succ := succ[g.nodes[i].id := []];
      }
    }
    assert succ.Keys == Ids(g) - removed;
    for i := 0 to |g.edges|
      invariant succ.Keys == Ids(g) - removed
      invariant forall a :: a in succ ==> succ[a] == Targets(KeptEdges(g.edges[..i], removed), a)
    {
      var e := g.edges[i];
      assert g.edges[..i + 1][..i] == g.edges[..i];
      ghost var kept := KeptEdges(g.edges[..i], removed);
      assert (kept + [e])[..|kept|] == kept;
      if e.from.node !in removed && e.to.node !in removed && e.from.node in succ {
        succ := succ[e.from.node := succ[e.from.node] + [e.to.node]];
      }
    }
    assert g.edges[..|g.edges|] == g.edges;
  }

  /** Adjacency lists and arcs say the same. */
  lemma AdjacencyArcs(succ: Successors, ids: set<string>, edges: seq<Edge>)
    requires Adjacency(succ, ids, edges)
    ensures forall a, b :: a in succ ==> (b in succ[a] <==> (a, b) in ArcsOf(edges))
  {
    forall a, b | a in succ ensures b in succ[a] <==> (a, b) in ArcsOf(edges) {
      TargetsAreArcs(edges, a, b);
    }
  }

  /** The adjacency lists cover a closed set of nodes. */
  ghost predicate Total(succ: Successors) {
    forall a {:trigger succ[a]} :: a in succ ==> forall b :: b in succ[a] ==> b in succ
  }

  ghost function SuccArcs(succ: Successors): Arcs {
    set a, b | a in succ && b in succ[a] :: (a, b)
  }
}
