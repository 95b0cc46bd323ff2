/** From a parsed circuit to its canonical graph (`gate-v3-graph.ts`, buildGateGraph), and the proof that
    the graph does not depend on the order in which the circuit was drawn. */
module CircuitGraph {
  import opened DigitText
  import opened CodeUnitOrder
  import opened GateGraph

  datatype CircuitWire = CircuitWire(from: Endpoint, to: Endpoint, bound: Bound)

  datatype Drawing = Drawing(name: string, parts: seq<PartUse>, wires: seq<CircuitWire>)

  const FAMILIES: set<string> := {"DENY", "FAULT", "TRAP", "DRAIN"}

  function NodeIdOf(e: Endpoint): string {
    if e.node in FAMILIES then e.node + "." + e.port else e.node
  }

  function PortOf(e: Endpoint): string {
    if e.node in FAMILIES then "" else e.port
  }

  function EdgeOf(w: CircuitWire): Edge {
    Edge(Endpoint(NodeIdOf(w.from), PortOf(w.from)), Endpoint(NodeIdOf(w.to), PortOf(w.to)), w.bound)
  }

  function EdgesOf(wires: seq<CircuitWire>): seq<Edge> {
    seq(|wires|, i requires 0 <= i < |wires| => EdgeOf(wires[i]))
  }

  // ----- The order of edges -----

  function BoundKey(b: Bound): string {
    match b
    case NoBound => ""
    case Budget(n) => "budget=" + NatName(n)
    case Decreases(v) => "decreases=" + v
  }

  /** No two annotations have the same key. */
  lemma BoundKeyInjective(a: Bound, b: Bound)
    requires BoundKey(a) == BoundKey(b)
    ensures a == b
  {
    var x, y := BoundKey(a), BoundKey(b);
    assert a.Budget? ==> x[0] == 'b' && x[7..] == NatName(a.value);
    assert b.Budget? ==> y[0] == 'b' && y[7..] == NatName(b.value);
    assert a.Decreases? ==> x[0] == 'd' && x[10..] == a.variant;
    assert b.Decreases? ==> y[0] == 'd' && y[10..] == b.variant;
    if a.Budget? && b.Budget? { NatNameInjective(a.value, b.value); }
  }

  function Keys(e: Edge): seq<string> {
    [e.from.node, e.from.port, e.to.node, e.to.port, BoundKey(e.bound)]
  }

  /** The first difference decides. */
  function CompareKeys(a: seq<string>, b: seq<string>): int
    requires |a| == |b|
  {
    if a == [] then 0
    else if ByCodeUnit(a[0], b[0]) != 0 then ByCodeUnit(a[0], b[0])
    else CompareKeys(a[1..], b[1..])
  }

  predicate EdgeLe(a: Edge, b: Edge) {
    CompareKeys(Keys(a), Keys(b)) <= 0
  }

  lemma {:induction false} KeysFlip(a: seq<string>, b: seq<string>)
    requires |a| == |b|
    ensures CompareKeys(a, b) == -CompareKeys(b, a)
    ensures CompareKeys(a, b) == 0 ==> a == b
  {
    if a != [] {
      ByCodeUnitFlip(a[0], b[0]);
      ByCodeUnitZero(a[0], b[0]);
      KeysFlip(a[1..], b[1..]);
      assert a == [a[0]] + a[1..] && b == [b[0]] + b[1..];
    }
  }

  lemma {:induction false} KeysTransitive(a: seq<string>, b: seq<string>, c: seq<string>)
    requires |a| == |b| == |c| && CompareKeys(a, b) <= 0 && CompareKeys(b, c) <= 0
    ensures CompareKeys(a, c) <= 0
  {
    if a != [] {
      LeTransitive(a[0], b[0], c[0]);
      ByCodeUnitZero(a[0], b[0]);
      ByCodeUnitZero(b[0], c[0]);
      ByCodeUnitZero(a[0], c[0]);
      ByCodeUnitFlip(a[0], b[0]);
      ByCodeUnitFlip(b[0], c[0]);
      if ByCodeUnit(a[0], c[0]) == 0 {
        assert ByCodeUnit(a[0], b[0]) == 0 && ByCodeUnit(b[0], c[0]) == 0;
        KeysTransitive(a[1..], b[1..], c[1..]);
      }
    }
  }

  lemma KeysInjective(a: Edge, b: Edge)
    requires Keys(a) == Keys(b)
    ensures a == b
  {
    var x, y := Keys(a), Keys(b);
    assert x[0] == y[0] && x[1] == y[1] && x[2] == y[2] && x[3] == y[3] && x[4] == y[4];
    BoundKeyInjective(a.bound, b.bound);
  }

  /** The sort's ties are only between equal edges. */
  lemma EdgeLeIsTotalOrder()
    ensures TotalOrder(EdgeLe)
  {
    forall x: Edge, y: Edge ensures (EdgeLe(x, y) || EdgeLe(y, x)) && (EdgeLe(x, y) && EdgeLe(y, x) ==> x == y) {
      KeysFlip(Keys(x), Keys(y));
      if Keys(x) == Keys(y) { KeysInjective(x, y); }
    }
    forall x: Edge, y: Edge, z: Edge | EdgeLe(x, y) && EdgeLe(y, z) ensures EdgeLe(x, z) {
      KeysTransitive(Keys(x), Keys(y), Keys(z));
    }
  }

  // ----- The nodes -----

  predicate HasId(nodes: seq<Node>, id: string) {
    exists i :: 0 <= i < |nodes| && nodes[i].id == id
  }

  /** Setting a key that is there replaces its value in place. */
  function PutNode(nodes: seq<Node>, n: Node): seq<Node> {
    if nodes == [] then [n]
    else if nodes[0].id == n.id then [n] + nodes[1..]
    else [nodes[0]] + PutNode(nodes[1..], n)
  }

  const FRONTIER: seq<Node> := [Node("IN", Input, ""), Node("OUT", Output, "")]

  function PartNode(p: PartUse): Node {
    Node(p.instance, Part, p.component)
  }

  function PartNodes(parts: seq<PartUse>): seq<Node> {
    if parts == [] then FRONTIER else PutNode(PartNodes(parts[..|parts| - 1]), PartNode(parts[|parts| - 1]))
  }

  function WithTerminal(nodes: seq<Node>, e: Endpoint): seq<Node> {
    if e.node in FAMILIES && !HasId(nodes, NodeIdOf(e)) then nodes + [Node(NodeIdOf(e), Terminal, "")] else nodes
  }

  function AllNodes(parts: seq<PartUse>, wires: seq<CircuitWire>): seq<Node> {
    if wires == [] then PartNodes(parts)
    else
      var before, w := AllNodes(parts, wires[..|wires| - 1]), wires[|wires| - 1];
      WithTerminal(WithTerminal(before, w.from), w.to)
  }

  predicate IdLe(a: Node, b: Node) {
    Le(a.id, b.id)
  }

  function CanonicalGraph(d: Drawing): Graph {
    Graph(d.name, Sort(AllNodes(d.parts, d.wires), IdLe), Sort(EdgesOf(d.wires), EdgeLe))
  }

  method BuildGateGraph(d: Drawing) returns (g: Graph)
    ensures g == CanonicalGraph(d)
  {
    var nodes := FRONTIER;
    for i := 0 to |d.parts|
      invariant nodes == PartNodes(d.parts[..i])
    {
      ghost var done := d.parts[..i + 1];
      assert done[..|done| - 1] == d.parts[..i];
      nodes := PutNode(nodes, PartNode(d.parts[i]));
    }
    assert d.parts[..|d.parts|] == d.parts;
    for i := 0 to |d.wires|
      invariant nodes == AllNodes(d.parts, d.wires[..i])
    {
      ghost var done := d.wires[..i + 1];
      assert done[..|done| - 1] == d.wires[..i];
      nodes := WithTerminal(nodes, d.wires[i].from);
      nodes := WithTerminal(nodes, d.wires[i].to);
    }
    assert d.wires[..|d.wires|] == d.wires;
    g := Graph(d.name, Sort(nodes, IdLe), Sort(EdgesOf(d.wires), EdgeLe));
  }

  // ----- Which nodes there are -----

  /** Instance names are unique and none is a frontier's. */
  ghost predicate NamesUnique(parts: seq<PartUse>) {
    && (forall i, j :: 0 <= i < j < |parts| ==> parts[i].instance != parts[j].instance)
    && (forall i :: 0 <= i < |parts| ==> parts[i].instance != "IN" && parts[i].instance != "OUT")
  }

  ghost predicate IdsDistinct(nodes: seq<Node>) {
    forall i, j :: 0 <= i < j < |nodes| ==> nodes[i].id != nodes[j].id
  }

  lemma {:induction false} PutNew(nodes: seq<Node>, n: Node)
    requires !HasId(nodes, n.id)
    ensures PutNode(nodes, n) == nodes + [n]
  {
    if nodes != [] {
      assert forall i :: 0 <= i < |nodes[1..]| ==> nodes[1..][i] == nodes[i + 1];
      PutNew(nodes[1..], n);
    }
  }

  ghost predicate IsPartNode(parts: seq<PartUse>, n: Node) {
    exists p :: p in parts && n == PartNode(p)
  }

  lemma NewInstance(parts: seq<PartUse>, n: Node)
    requires NamesUnique(parts) && parts != [] && (n in FRONTIER || IsPartNode(parts[..|parts| - 1], n))
    ensures n.id != parts[|parts| - 1].instance
  {
    var init := parts[..|parts| - 1];
    if IsPartNode(init, n) {
      var p :| p in init && n == PartNode(p);
      var i :| 0 <= i < |init| && init[i] == p;
      assert parts[i] == p;
    }
  }

  lemma {:induction false} PartNodesExact(parts: seq<PartUse>)
    requires NamesUnique(parts)
    ensures forall n :: n in PartNodes(parts) <==> n in FRONTIER || IsPartNode(parts, n)
    ensures IdsDistinct(PartNodes(parts))
  {
    if parts != [] {
      var init, p := parts[..|parts| - 1], parts[|parts| - 1];
      PartNodesExact(init);
      var nodes := PartNodes(init);
      forall n | n in nodes ensures n.id != p.instance { NewInstance(parts, n); }
      PutNew(nodes, PartNode(p));
      PartNodesOneMore(init, p, nodes);
      assert parts == init + [p];
    }
  }

  lemma PartNodesOneMore(init: seq<PartUse>, p: PartUse, nodes: seq<Node>)
    requires forall n :: n in nodes <==> n in FRONTIER || IsPartNode(init, n)
    ensures forall n :: n in nodes + [PartNode(p)] <==> n in FRONTIER || IsPartNode(init + [p], n)
  {
    forall n ensures IsPartNode(init + [p], n) <==> IsPartNode(init, n) || n == PartNode(p) {
      if IsPartNode(init, n) { var q :| q in init && n == PartNode(q); assert q in init + [p]; }
      assert p in init + [p];
    }
  }

  ghost predicate IsTerminalOf(wires: seq<CircuitWire>, id: string) {
    exists w :: w in wires && ((w.from.node in FAMILIES && NodeIdOf(w.from) == id) || (w.to.node in FAMILIES && NodeIdOf(w.to) == id))
  }

  /** The terminals that some wire names, unless a part has taken the name. */
  ghost predicate IsNodeOf(parts: seq<PartUse>, wires: seq<CircuitWire>, n: Node) {
    || n in PartNodes(parts)
    || (n == Node(n.id, Terminal, "") && IsTerminalOf(wires, n.id) && !HasId(PartNodes(parts), n.id))
  }

  /** What adding terminals keeps. */
  ghost predicate NodesExact(parts: seq<PartUse>, wires: seq<CircuitWire>, nodes: seq<Node>) {
    && IdsDistinct(nodes)
    && (forall n :: n in PartNodes(parts) ==> n in nodes)
    && (forall n :: n in nodes ==> IsNodeOf(parts, wires, n))
    && (forall id :: IsTerminalOf(wires, id) ==> HasId(nodes, id))
  }

  lemma {:induction false} AllNodesExact(parts: seq<PartUse>, wires: seq<CircuitWire>)
    requires NamesUnique(parts)
    ensures NodesExact(parts, wires, AllNodes(parts, wires))
  {
    PartNodesExact(parts);
    if wires != [] {
      var init, w := wires[..|wires| - 1], wires[|wires| - 1];
      AllNodesExact(parts, init);
      assert wires == init + [w];
      var before := AllNodes(parts, init);
      var mid := WithTerminal(before, w.from);
      TerminalAdded(parts, init, wires, before, w.from, w);
      TerminalAdded(parts, wires, wires, mid, w.to, w);
    }
  }

  /** Half a wire's terminals may still be missing. */
  ghost predicate NodesSoFar(parts: seq<PartUse>, wires: seq<CircuitWire>, nodes: seq<Node>) {
    && IdsDistinct(nodes)
    && (forall n :: n in PartNodes(parts) ==> n in nodes)
    && (forall n :: n in nodes ==> IsNodeOf(parts, wires, n))
  }

  lemma TerminalAdded(parts: seq<PartUse>, before: seq<CircuitWire>, wires: seq<CircuitWire>, nodes: seq<Node>, e: Endpoint, w: CircuitWire)
    requires NodesSoFar(parts, before, nodes) && w in wires && (e == w.from || e == w.to) && forall x :: x in before ==> x in wires
    ensures NodesSoFar(parts, wires, WithTerminal(nodes, e))
    ensures e.node in FAMILIES ==> HasId(WithTerminal(nodes, e), NodeIdOf(e))
    ensures forall id :: HasId(nodes, id) ==> HasId(WithTerminal(nodes, e), id)
  {
    var after := WithTerminal(nodes, e);
    forall id | HasId(nodes, id) ensures HasId(after, id) {
      var i :| 0 <= i < |nodes| && nodes[i].id == id;
      assert after[i] == nodes[i];
    }
    forall n | n in nodes ensures IsNodeOf(parts, wires, n) { assert IsNodeOf(parts, before, n); }
    forall id | IsTerminalOf(before, id) ensures IsTerminalOf(wires, id) {}
    if after != nodes {
      var added := after[|nodes|];
      assert after == nodes + [added] && IsTerminalOf(wires, added.id);
      forall i | 0 <= i < |PartNodes(parts)| ensures PartNodes(parts)[i].id != added.id {
        assert PartNodes(parts)[i] in nodes;
      }
    }
  }

  // ----- Independence of the order -----

  lemma SameIds(a: seq<Node>, b: seq<Node>, id: string)
    requires forall n :: n in a <==> n in b
    ensures HasId(a, id) <==> HasId(b, id)
  {
    if HasId(a, id) {
      var i :| 0 <= i < |a| && a[i].id == id;
      assert a[i] in b;
      var j :| 0 <= j < |b| && b[j] == a[i];
    }
    if HasId(b, id) {
      var i :| 0 <= i < |b| && b[i].id == id;
      assert b[i] in a;
      var j :| 0 <= j < |a| && a[j] == b[i];
    }
  }

  lemma MemberHasId(nodes: seq<Node>, n: Node)
    ensures n in nodes ==> HasId(nodes, n.id)
  {}

  lemma NodesIncluded(parts: seq<PartUse>, parts': seq<PartUse>, wires: seq<CircuitWire>, wires': seq<CircuitWire>, n: Node)
    requires NamesUnique(parts) && NamesUnique(parts') && n in AllNodes(parts, wires)
    requires (forall p :: p in parts <==> p in parts') && (forall w :: w in wires <==> w in wires')
    ensures n in AllNodes(parts', wires')
  {
    AllNodesExact(parts, wires);
    AllNodesExact(parts', wires');
    PartNodesExact(parts);
    PartNodesExact(parts');
    SameIds(PartNodes(parts), PartNodes(parts'), n.id);
    if n !in PartNodes(parts) {
      assert IsTerminalOf(wires', n.id);
      var i :| 0 <= i < |AllNodes(parts', wires')| && AllNodes(parts', wires')[i].id == n.id;
      var m := AllNodes(parts', wires')[i];
      assert IsNodeOf(parts', wires', m);
      MemberHasId(PartNodes(parts'), m);
      assert m == n;
    }
  }

  /** Taking one wire out takes one edge out. */
  lemma EdgesTake(b: seq<CircuitWire>, k: nat)
    requires k < |b|
    ensures multiset(EdgesOf(b)) == multiset{EdgeOf(b[k])} + multiset(EdgesOf(b[..k] + b[k + 1..]))
  {
    var left, right := EdgesOf(b[..k]), EdgesOf(b[k + 1..]);
    assert EdgesOf(b[..k] + b[k + 1..]) == left + right;
    assert EdgesOf(b) == left + [EdgeOf(b[k])] + right;
  }

  lemma WiresTake(b: seq<CircuitWire>, k: nat)
    requires k < |b|
    ensures multiset(b) == multiset{b[k]} + multiset(b[..k] + b[k + 1..])
  {
    assert b == b[..k] + [b[k]] + b[k + 1..];
  }

  lemma Cancel<T>(x: T, a: multiset<T>, b: multiset<T>)
    requires multiset{x} + a == multiset{x} + b
    ensures a == b
  {
    assert a == (multiset{x} + a) - multiset{x} == (multiset{x} + b) - multiset{x} == b;
  }

  lemma TakeSame(a: seq<CircuitWire>, b: seq<CircuitWire>, k: nat)
    requires multiset(a) == multiset(b) && a != [] && k < |b| && b[k] == a[0]
    ensures multiset(a[1..]) == multiset(b[..k] + b[k + 1..])
  {
    WiresTake(a, 0);
    WiresTake(b, k);
    assert a[..0] + a[1..] == a[1..];
    Cancel(a[0], multiset(a[1..]), multiset(b[..k] + b[k + 1..]));
  }

  lemma EdgesFromTaken(a: seq<CircuitWire>, b: seq<CircuitWire>, k: nat)
    requires a != [] && k < |b| && b[k] == a[0] && multiset(EdgesOf(a[1..])) == multiset(EdgesOf(b[..k] + b[k + 1..]))
    ensures multiset(EdgesOf(a)) == multiset(EdgesOf(b))
  {
    EdgesTake(a, 0);
    EdgesTake(b, k);
    assert a[..0] + a[1..] == a[1..];
  }

  lemma {:induction false} EdgesPermute(a: seq<CircuitWire>, b: seq<CircuitWire>)
    requires multiset(a) == multiset(b)
    ensures multiset(EdgesOf(a)) == multiset(EdgesOf(b))
  {
    assert |a| == |multiset(a)| == |multiset(b)| == |b|;
    if a != [] {
      SameElements(a, b);
      assert a[0] in b;
      var k :| 0 <= k < |b| && b[k] == a[0];
      TakeSame(a, b, k);
      EdgesPermute(a[1..], b[..k] + b[k + 1..]);
      EdgesFromTaken(a, b, k);
    }
  }

  lemma IdLeIsPreorder()
    ensures TotalPreorder(IdLe)
  {
    LeIsTotalOrder();
  }

  lemma NodesPermute(parts: seq<PartUse>, parts': seq<PartUse>, wires: seq<CircuitWire>, wires': seq<CircuitWire>)
    requires NamesUnique(parts) && NamesUnique(parts')
    requires (forall p :: p in parts <==> p in parts') && (forall w :: w in wires <==> w in wires')
    ensures Sort(AllNodes(parts, wires), IdLe) == Sort(AllNodes(parts', wires'), IdLe)
  {
    var a, b := AllNodes(parts, wires), AllNodes(parts', wires');
    forall n ensures n in a <==> n in b {
      if n in a { NodesIncluded(parts, parts', wires, wires', n); }
      if n in b { NodesIncluded(parts', parts, wires', wires, n); }
    }
    AllNodesExact(parts, wires);
    AllNodesExact(parts', wires');
    DistinctSameElements(a, b);
    IdLeIsPreorder();
    LeIsTotalOrder();
    SortSorted(a, IdLe);
    SortSorted(b, IdLe);
    SortKeepsElements(a, IdLe);
    forall x, y | x in a && y in a && IdLe(x, y) && IdLe(y, x) ensures x == y {
      var i :| 0 <= i < |a| && a[i] == x;
      var j :| 0 <= j < |a| && a[j] == y;
    }
    SortedUnique(Sort(a, IdLe), Sort(b, IdLe), IdLe);
  }

  lemma EdgesSortSame(a: seq<CircuitWire>, b: seq<CircuitWire>)
    requires multiset(a) == multiset(b)
    ensures Sort(EdgesOf(a), EdgeLe) == Sort(EdgesOf(b), EdgeLe)
  {
    EdgesPermute(a, b);
    EdgeLeIsTotalOrder();
    SortSorted(EdgesOf(a), EdgeLe);
    SortSorted(EdgesOf(b), EdgeLe);
    SortedUnique(Sort(EdgesOf(a), EdgeLe), Sort(EdgesOf(b), EdgeLe), EdgeLe);
  }

  /** Drawing the same parts and wires in another order gives the identical graph. */
  lemma GraphIsCanonical(d: Drawing, d': Drawing)
    requires NamesUnique(d.parts) && NamesUnique(d'.parts) && d.name == d'.name
    requires multiset(d.parts) == multiset(d'.parts) && multiset(d.wires) == multiset(d'.wires)
    ensures CanonicalGraph(d) == CanonicalGraph(d')
  {
    SameElements(d.parts, d'.parts);
    SameElements(d.wires, d'.wires);
    NodesPermute(d.parts, d'.parts, d.wires, d'.wires);
    EdgesSortSame(d.wires, d'.wires);
  }

  /** Every endpoint names a frontier, a part, or a terminal. */
  ghost predicate Resolved(d: Drawing) {
    forall w, e :: w in d.wires && (e == w.from || e == w.to) ==> e.node in FAMILIES || HasId(PartNodes(d.parts), e.node)
  }

  /** The graph of a resolved circuit is one the passes over it may rely on. */
  lemma GraphIsWellFormed(d: Drawing)
    requires NamesUnique(d.parts) && Resolved(d)
    ensures WellFormed(CanonicalGraph(d))
  {
    var g := CanonicalGraph(d);
    AllNodesExact(d.parts, d.wires);
    SortKeepsElements(AllNodes(d.parts, d.wires), IdLe);
    SortKeepsElements(EdgesOf(d.wires), EdgeLe);
    forall e | e in g.edges ensures e.from.node in Ids(g) && e.to.node in Ids(g) {
      assert e in EdgesOf(d.wires);
      var i :| 0 <= i < |d.wires| && EdgesOf(d.wires)[i] == e;
      var w := d.wires[i];
      EndpointIsNode(d, w, w.from);
      EndpointIsNode(d, w, w.to);
    }
  }

  lemma EndpointIsNode(d: Drawing, w: CircuitWire, e: Endpoint)
    requires Resolved(d) && w in d.wires && (e == w.from || e == w.to) && NodesExact(d.parts, d.wires, AllNodes(d.parts, d.wires))
    requires forall n :: n in AllNodes(d.parts, d.wires) <==> n in CanonicalGraph(d).nodes
    ensures NodeIdOf(e) in Ids(CanonicalGraph(d))
  {
    var nodes := AllNodes(d.parts, d.wires);
    if e.node in FAMILIES {
      assert IsTerminalOf(d.wires, NodeIdOf(e));
      var i :| 0 <= i < |nodes| && nodes[i].id == NodeIdOf(e);
      assert nodes[i] in CanonicalGraph(d).nodes;
    } else {
      var i :| 0 <= i < |PartNodes(d.parts)| && PartNodes(d.parts)[i].id == e.node;
      assert PartNodes(d.parts)[i] in nodes;
    }
  }
}
