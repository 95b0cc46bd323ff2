/** What the canonical graph of a drawing holds and in which order, said of the drawing itself. */
module GraphMeaning {
  import opened DigitText
  import opened CodeUnitOrder
  import opened GateGraph
  import opened CircuitGraph
  import DepthFirst
  import Separation

  // ----- Which nodes and edges -----

  /** An end of a wire at a terminal: the reason belongs to the node, and there is no port. */
  ghost predicate IsEnd(x: Endpoint, y: Endpoint) {
    if x.node == "DENY" || x.node == "FAULT" || x.node == "TRAP" || x.node == "DRAIN"
    then y == Endpoint(x.node + "." + x.port, "")
    else y == x
  }

  /** The edge runs as the wire does, with its annotation. */
  ghost predicate Traces(w: CircuitWire, e: Edge) {
    IsEnd(w.from, e.from) && IsEnd(w.to, e.to) && e.bound == w.bound
  }

  /** The edges are the wires, each as often as it is drawn. */
  lemma EdgesAreWires(d: Drawing) returns (es: seq<Edge>)
    ensures |es| == |d.wires| && (forall i :: 0 <= i < |es| ==> Traces(d.wires[i], es[i]))
    ensures multiset(CanonicalGraph(d).edges) == multiset(es)
  {
    es := EdgesOf(d.wires);
  }

  ghost predicate IsFamily(name: string) {
    name == "DENY" || name == "FAULT" || name == "TRAP" || name == "DRAIN"
  }

  /** Some wire has an end at the terminal called `id`. */
  ghost predicate NamesTerminal(d: Drawing, id: string) {
    exists w, e :: w in d.wires && (e == w.from || e == w.to) && IsFamily(e.node) && id == e.node + "." + e.port
  }

  ghost predicate NamesPart(d: Drawing, id: string) {
    exists p :: p in d.parts && p.instance == id
  }

  /** The input frontier, the output, a part, or a terminal that some wire names and no part does. */
  ghost predicate BelongsTo(d: Drawing, n: Node) {
    || n == Node("IN", Input, "") || n == Node("OUT", Output, "")
    || (exists p :: p in d.parts && n == Node(p.instance, Part, p.component))
    || (n == Node(n.id, Terminal, "") && NamesTerminal(d, n.id) && !NamesPart(d, n.id))
  }

  lemma TerminalNames(d: Drawing, id: string)
    ensures IsTerminalOf(d.wires, id) <==> NamesTerminal(d, id)
  {
    if IsTerminalOf(d.wires, id) {
      var w :| w in d.wires && ((w.from.node in FAMILIES && NodeIdOf(w.from) == id) || (w.to.node in FAMILIES && NodeIdOf(w.to) == id));
      var e := if w.from.node in FAMILIES && NodeIdOf(w.from) == id then w.from else w.to;
      assert IsFamily(e.node) && id == e.node + "." + e.port;
    }
  }

  /** A name with a dot in fifth place or before is neither frontier. */
  lemma TerminalIsNoFrontier(d: Drawing, id: string)
    requires NamesTerminal(d, id)
    ensures id != "IN" && id != "OUT"
  {
    var w, e :| w in d.wires && (e == w.from || e == w.to) && IsFamily(e.node) && id == e.node + "." + e.port;
    assert |id| >= 5;
  }

  lemma PartNodeIds(d: Drawing, id: string)
    requires NamesUnique(d.parts)
    ensures HasId(PartNodes(d.parts), id) <==> id == "IN" || id == "OUT" || NamesPart(d, id)
  {
    var nodes := PartNodes(d.parts);
    PartNodesExact(d.parts);
    if HasId(nodes, id) {
      var i :| 0 <= i < |nodes| && nodes[i].id == id;
      assert nodes[i] in nodes;
    }
    assert FRONTIER[0] in FRONTIER && FRONTIER[1] in FRONTIER;
    assert FRONTIER[0] in nodes && FRONTIER[1] in nodes;
    MemberHasId(nodes, FRONTIER[0]);
    MemberHasId(nodes, FRONTIER[1]);
    if NamesPart(d, id) {
      var p :| p in d.parts && p.instance == id;
      assert IsPartNode(d.parts, PartNode(p));
      MemberHasId(nodes, PartNode(p));
    }
  }

  /** The graph has exactly the nodes that belong to the drawing, each once. */
  lemma NodesBelong(d: Drawing)
    requires NamesUnique(d.parts)
    ensures forall n :: n in CanonicalGraph(d).nodes <==> BelongsTo(d, n)
    ensures Distinct(CanonicalGraph(d).nodes)
  {
    var nodes := AllNodes(d.parts, d.wires);
    PartNodesExact(d.parts);
    AllNodesExact(d.parts, d.wires);
    SortKeepsElements(nodes, IdLe);
    forall n ensures n in nodes <==> BelongsTo(d, n) { NodeBelongs(d, n); }
  }

  lemma NodeBelongs(d: Drawing, n: Node)
    requires NamesUnique(d.parts)
    ensures n in AllNodes(d.parts, d.wires) <==> BelongsTo(d, n)
  {
    var nodes := AllNodes(d.parts, d.wires);
    PartNodesExact(d.parts);
    AllNodesExact(d.parts, d.wires);
    TerminalNames(d, n.id);
    PartNodeIds(d, n.id);
    if NamesTerminal(d, n.id) { TerminalIsNoFrontier(d, n.id); }
    assert IsPartNode(d.parts, n) <==> exists p :: p in d.parts && n == Node(p.instance, Part, p.component);
    if n in nodes { assert IsNodeOf(d.parts, d.wires, n); }
    if n == Node(n.id, Terminal, "") && NamesTerminal(d, n.id) && !NamesPart(d, n.id) {
      var i :| 0 <= i < |nodes| && nodes[i].id == n.id;
      assert IsNodeOf(d.parts, d.wires, nodes[i]);
      MemberHasId(PartNodes(d.parts), nodes[i]);
    }
  }

  /** The passes start at the input frontier and watch the output. */
  lemma PassesStartAtFrontier(d: Drawing)
    requires NamesUnique(d.parts)
    ensures Node(DepthFirst.ROOT, Input, "") in CanonicalGraph(d).nodes
    ensures Node(Separation.OUT, Output, "") in CanonicalGraph(d).nodes
  {
    NodesBelong(d);
    assert BelongsTo(d, Node("IN", Input, "")) && BelongsTo(d, Node("OUT", Output, ""));
  }

  // ----- In which order -----

  /** How an annotation is written for comparison. */
  ghost predicate Annotates(b: Bound, t: string) {
    match b
    case NoBound => t == ""
    case Budget(n) => exists d :: IsDecimal(d, n) && t == "budget=" + d
    case Decreases(v) => t == "decreases=" + v
  }

  lemma KeyAnnotates(b: Bound)
    ensures Annotates(b, BoundKey(b))
  {
    if b.Budget? { NatNameIsDecimal(b.value); }
  }

  ghost predicate BoundNotAfter(a: Bound, b: Bound) {
    exists s, t :: Annotates(a, s) && Annotates(b, t) && NotAfter(s, t)
  }

  /** The first of source node, source port, target node and target port that differs decides, and then
      the annotation. */
  ghost predicate EdgeNotAfter(a: Edge, b: Edge) {
    if a.from.node != b.from.node then NotAfter(a.from.node, b.from.node)
    else if a.from.port != b.from.port then NotAfter(a.from.port, b.from.port)
    else if a.to.node != b.to.node then NotAfter(a.to.node, b.to.node)
    else if a.to.port != b.to.port then NotAfter(a.to.port, b.to.port)
    else BoundNotAfter(a.bound, b.bound)
  }

  /** One key more in front. */
  lemma FirstKey(x: string, a: seq<string>, y: string, b: seq<string>)
    requires |a| == |b|
    ensures CompareKeys([x] + a, [y] + b) <= 0 <==> if x != y then NotAfter(x, y) else CompareKeys(a, b) <= 0
  {
    ByCodeUnitZero(x, y);
    LeMeans(x, y);
    assert ([x] + a)[1..] == a && ([y] + b)[1..] == b;
  }

  lemma EdgeLeMeans(a: Edge, b: Edge)
    requires EdgeLe(a, b)
    ensures EdgeNotAfter(a, b)
  {
    var k, l := Keys(a), Keys(b);
    FromKey(a, b, 4);
    FromKey(a, b, 3);
    FromKey(a, b, 2);
    FromKey(a, b, 1);
    FromKey(a, b, 0);
    assert k[5..] == [] == l[5..] && k[0..] == k && l[0..] == l;
    KeyAnnotates(a.bound);
    KeyAnnotates(b.bound);
    if a.from == b.from && a.to == b.to && k[4] == l[4] { PrefixOfItself(k[4]); }
  }

  lemma PrefixOfItself(t: string)
    ensures NotAfter(t, t)
  {}

  lemma FromKey(a: Edge, b: Edge, i: nat)
    requires i < 5
    ensures var k, l := Keys(a), Keys(b);
      CompareKeys(k[i..], l[i..]) <= 0 <==> if k[i] != l[i] then NotAfter(k[i], l[i]) else CompareKeys(k[i + 1..], l[i + 1..]) <= 0
  {
    var k, l := Keys(a), Keys(b);
    assert k[i..] == [k[i]] + k[i + 1..] && l[i..] == [l[i]] + l[i + 1..];
    FirstKey(k[i], k[i + 1..], l[i], l[i + 1..]);
  }

  /** Nodes ascend by name, edges by their ends and annotations. */
  lemma GraphAscends(d: Drawing)
    ensures var nodes := CanonicalGraph(d).nodes; forall i, j :: 0 <= i < j < |nodes| ==> NotAfter(nodes[i].id, nodes[j].id)
    ensures var edges := CanonicalGraph(d).edges; forall i, j :: 0 <= i < j < |edges| ==> EdgeNotAfter(edges[i], edges[j])
  {
    var g := CanonicalGraph(d);
    IdLeIsPreorder();
    EdgeLeIsTotalOrder();
    SortSorted(AllNodes(d.parts, d.wires), IdLe);
    SortSorted(EdgesOf(d.wires), EdgeLe);
    forall i, j | 0 <= i < j < |g.nodes| ensures NotAfter(g.nodes[i].id, g.nodes[j].id) {
      assert IdLe(g.nodes[i], g.nodes[j]);
      LeMeans(g.nodes[i].id, g.nodes[j].id);
    }
    forall i, j | 0 <= i < j < |g.edges| ensures EdgeNotAfter(g.edges[i], g.edges[j]) { EdgeLeMeans(g.edges[i], g.edges[j]); }
  }
}
