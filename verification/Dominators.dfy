/** Immediate dominators from the input frontier (`gate-v3-privacy.ts`, computeDominators and
    dominatorsOf): a fixpoint over the reverse postorder, on any graph. */
module Dominators {
  import opened CodeUnitOrder
  import opened Reachability
  import opened Folding
  import opened GateGraph
  import opened DepthFirst
  import opened DominatorTree

  /** Every path from the root to the reachable node `n` passes `d`. */
  ghost predicate Dominates(arcs: Arcs, d: string, n: string) {
    Reach(arcs, ROOT, n) && forall p :: IsPathFrom(arcs, p, ROOT, n) ==> d in p
  }

  ghost predicate StrictlyDominates(arcs: Arcs, d: string, n: string) {
    d != n && Dominates(arcs, d, n)
  }

  /** The map holds exactly the reachable nodes; the root stands for itself, and every other node has
      its immediate dominator: the strict dominator that all its other strict dominators dominate. */
  ghost predicate ImmediateDominators(arcs: Arcs, idom: map<string, string>) {
    && (forall v :: v in idom <==> Reach(arcs, ROOT, v))
    && ROOT in idom && idom[ROOT] == ROOT
    && (forall v :: v in idom && v != ROOT ==> StrictlyDominates(arcs, idom[v], v))
    && (forall v, d :: v in idom && v != ROOT && StrictlyDominates(arcs, d, v) ==> Dominates(arcs, d, idom[v]))
  }

  // ----- Facts about domination -----

  lemma DominatorReachable(arcs: Arcs, d: string, n: string)
    requires Dominates(arcs, d, n)
    ensures Reach(arcs, ROOT, d)
  {
    var p :| IsPathFrom(arcs, p, ROOT, n);
    var i :| 0 <= i < |p| && p[i] == d;
    PathPrefix(arcs, p, i);
  }

  lemma DominatesSelf(arcs: Arcs, n: string)
    requires Reach(arcs, ROOT, n)
    ensures Dominates(arcs, n, n) && Dominates(arcs, ROOT, n)
  {}

  lemma OnlyRootDominatesRoot(arcs: Arcs, d: string)
    requires Dominates(arcs, d, ROOT)
    ensures d == ROOT
  {
    assert IsPathFrom(arcs, [ROOT], ROOT, ROOT);
  }

  lemma DominatesTransitive(arcs: Arcs, a: string, b: string, c: string)
    requires Dominates(arcs, a, b) && Dominates(arcs, b, c)
    ensures Dominates(arcs, a, c)
  {
    forall p | IsPathFrom(arcs, p, ROOT, c) ensures a in p {
      var i :| 0 <= i < |p| && p[i] == b;
      PathPrefix(arcs, p, i);
      assert a in p[..i + 1];
    }
  }

  /** Two different nodes cannot each be on every path to the other. */
  lemma {:induction false} NoMutualDomination(arcs: Arcs, a: string, b: string, p: seq<string>)
    requires Dominates(arcs, a, b) && Dominates(arcs, b, a) && IsPathFrom(arcs, p, ROOT, a)
    ensures a == b
    decreases |p|
  {
    if a != b {
      var j :| 0 <= j < |p| && p[j] == b;
      PathPrefix(arcs, p, j);
      NoMutualDomination(arcs, b, a, p[..j + 1]);
    }
  }

  /** What strictly dominates a node dominates each of its reachable predecessors. */
  lemma DominatesPredecessor(arcs: Arcs, d: string, p: string, n: string)
    requires StrictlyDominates(arcs, d, n) && (p, n) in arcs && Reach(arcs, ROOT, p)
    ensures Dominates(arcs, d, p)
  {
    forall q | IsPathFrom(arcs, q, ROOT, p) ensures d in q {
      PathConcat(arcs, q, [p, n]);
      assert q + [p, n][1..] == q + [n];
    }
  }

  // ----- Names and numbers -----

  ghost function PredsOf(arcs: Arcs, order: seq<string>): Preds {
    set p, i | 0 <= p < |order| && 0 <= i < |order| && (order[p], order[i]) in arcs :: (p, i)
  }

  ghost function DomsOf(arcs: Arcs, order: seq<string>): Doms {
    set d, i | 0 <= d < |order| && 0 <= i < |order| && Dominates(arcs, order[d], order[i]) :: (d, i)
  }

  lemma DomsOfOk(arcs: Arcs, order: seq<string>)
    requires IsReversePostorder(arcs, order)
    ensures DomsOk(DomsOf(arcs, order), PredsOf(arcs, order))
  {
    forall d, i, p | (d, i) in DomsOf(arcs, order) && d != i && (p, i) in PredsOf(arcs, order)
      ensures (d, p) in DomsOf(arcs, order)
    {
      assert order[d] != order[i];
      assert order[p] in order;
      DominatesPredecessor(arcs, order[d], order[p], order[i]);
    }
    forall d | (d, 0) in DomsOf(arcs, order) ensures d == 0 {
      OnlyRootDominatesRoot(arcs, order[d]);
    }
  }

  lemma OrderIsForward(arcs: Arcs, order: seq<string>)
    requires IsReversePostorder(arcs, order)
    ensures ForwardPred(PredsOf(arcs, order), |order|)
  {
    forall i | 0 < i < |order| ensures HasForward(PredsOf(arcs, order), i) {
      assert HasEarlier(arcs, order, i);
      var j :| 0 <= j < i && (order[j], order[i]) in arcs;
      assert (j, i) in PredsOf(arcs, order);
    }
  }

  /** In a settled tree, whatever is above a node is on every path to it. */
  lemma {:induction false} ChainOnPath(arcs: Arcs, order: seq<string>, par: Parents, i: int, e: int, p: seq<string>)
    requires IsReversePostorder(arcs, order) && |par| == |order| && Settled(PredsOf(arcs, order), par)
    requires 0 <= i < |order| && e in Chain(par, i) && IsPathFrom(arcs, p, ROOT, order[i])
    ensures order[e] in p
    decreases |p|
  {
    var k := |p| - 1;
    if e != i {
      assert order[0] != order[i];
      assert k > 0;
      PathPrefix(arcs, p, k - 1);
      var q := p[..k];
      assert IsPathFrom(arcs, q, ROOT, p[k - 1]);
      assert p[k - 1] in order;
      var j :| 0 <= j < |order| && order[j] == p[k - 1];
      assert (p[k - 1], p[k]) in arcs;
      assert (j, i) in PredsOf(arcs, order);
      assert Meet(PredsOf(arcs, order), par, i, par[i]);
      ChainOnPath(arcs, order, par, j, e, q);
    }
  }

  /** In a settled tree that lost no dominator, above a node are exactly its dominators. */
  lemma SettledIsExact(arcs: Arcs, order: seq<string>, par: Parents, d: int, i: int)
    requires IsReversePostorder(arcs, order) && |par| == |order|
    requires Settled(PredsOf(arcs, order), par) && Over(DomsOf(arcs, order), par)
    requires 0 <= d < |order| && 0 <= i < |order|
    ensures d in Chain(par, i) <==> Dominates(arcs, order[d], order[i])
  {
    if d in Chain(par, i) {
      assert order[i] in order;
      forall p | IsPathFrom(arcs, p, ROOT, order[i]) ensures order[d] in p {
        ChainOnPath(arcs, order, par, i, d, p);
      }
    }
    if Dominates(arcs, order[d], order[i]) {
      DomsOfOk(arcs, order);
      assert (d, i) in DomsOf(arcs, order);
      DomOnChain(DomsOf(arcs, order), PredsOf(arcs, order), par, d, i);
    }
  }

  /** The map names the parents that the numbers say. */
  ghost predicate Represents(order: seq<string>, idom: map<string, string>, par: Parents) {
    && |par| == |order|
    && (forall v :: v in idom ==> v in order)
    && (forall i :: 0 <= i < |order| ==> (order[i] in idom <==> par[i] >= 0))
    && (forall i :: 0 <= i < |order| && par[i] >= 0 ==> par[i] < |order| && idom[order[i]] == order[par[i]])
  }

  lemma EntriesAreReachable(arcs: Arcs, order: seq<string>, idom: map<string, string>, par: Parents, v: string)
    requires IsReversePostorder(arcs, order) && Represents(order, idom, par)
    requires forall i :: 0 <= i < |par| ==> IsSet(par, i)
    ensures v in idom <==> Reach(arcs, ROOT, v)
  {
    if v in order { var i :| 0 <= i < |order| && order[i] == v; assert IsSet(par, i); }
  }

  lemma ParentDominates(arcs: Arcs, order: seq<string>, par: Parents, i: int)
    requires IsReversePostorder(arcs, order) && |par| == |order| && 0 < i < |order|
    requires Settled(PredsOf(arcs, order), par) && Over(DomsOf(arcs, order), par)
    ensures 0 <= par[i] < i && StrictlyDominates(arcs, order[par[i]], order[i])
  {
    assert IsSet(par, i);
    assert par[i] in Chain(par, i);
    SettledIsExact(arcs, order, par, par[i], i);
  }

  lemma OthersDominateParent(arcs: Arcs, order: seq<string>, par: Parents, i: int, d: string)
    requires IsReversePostorder(arcs, order) && |par| == |order| && 0 < i < |order|
    requires Settled(PredsOf(arcs, order), par) && Over(DomsOf(arcs, order), par)
    requires 0 <= par[i] < i && StrictlyDominates(arcs, d, order[i])
    ensures Dominates(arcs, d, order[par[i]])
  {
    DominatorReachable(arcs, d, order[i]);
    var k :| 0 <= k < |order| && order[k] == d;
    SettledIsExact(arcs, order, par, k, i);
    assert k in Chain(par, par[i]);
    SettledIsExact(arcs, order, par, k, par[i]);
  }

  /** What the fixpoint has reached when it stops. */
  ghost predicate Solution(arcs: Arcs, order: seq<string>, idom: map<string, string>, par: Parents) {
    forall key {:trigger Unlock(key)} :: Unlock(key) ==>
      && IsReversePostorder(arcs, order) && Represents(order, idom, par)
      && Settled(PredsOf(arcs, order), par) && Over(DomsOf(arcs, order), par)
  }

  lemma SolutionEntry(arcs: Arcs, order: seq<string>, idom: map<string, string>, par: Parents, v: string)
    requires Solution(arcs, order, idom, par)
    ensures v in idom <==> Reach(arcs, ROOT, v)
    ensures ROOT in idom && idom[ROOT] == ROOT
  {
    assert Unlock(true);
    EntriesAreReachable(arcs, order, idom, par, v);
    assert IsSet(par, 0) && order[0] in idom;
  }

  lemma SolutionDominates(arcs: Arcs, order: seq<string>, idom: map<string, string>, par: Parents, v: string)
    requires Solution(arcs, order, idom, par) && v in idom && v != ROOT
    ensures StrictlyDominates(arcs, idom[v], v)
  {
    assert Unlock(true);
    var i :| 0 <= i < |order| && order[i] == v;
    ParentDominates(arcs, order, par, i);
  }

  lemma SolutionIsNearest(arcs: Arcs, order: seq<string>, idom: map<string, string>, par: Parents, v: string, d: string)
    requires Solution(arcs, order, idom, par) && v in idom && v != ROOT && StrictlyDominates(arcs, d, v)
    ensures Dominates(arcs, d, idom[v])
  {
    assert Unlock(true);
    var i :| 0 <= i < |order| && order[i] == v;
    ParentDominates(arcs, order, par, i);
    OthersDominateParent(arcs, order, par, i, d);
  }

  lemma ResultIsExact(arcs: Arcs, order: seq<string>, idom: map<string, string>, par: Parents)
    requires Solution(arcs, order, idom, par)
    ensures ImmediateDominators(arcs, idom)
  {
    forall v ensures (v in idom <==> Reach(arcs, ROOT, v)) && ROOT in idom && idom[ROOT] == ROOT {
      SolutionEntry(arcs, order, idom, par, v);
    }
    forall v | v in idom && v != ROOT ensures StrictlyDominates(arcs, idom[v], v) {
      SolutionDominates(arcs, order, idom, par, v);
    }
    forall v, d | v in idom && v != ROOT && StrictlyDominates(arcs, d, v) ensures Dominates(arcs, d, idom[v]) {
      SolutionIsNearest(arcs, order, idom, par, v, d);
    }
  }

  // ----- Predecessors -----

  /** The sources of the edges entering `b`, in edge order. */
  function Sources(edges: seq<Edge>, b: string): seq<string> {
    if edges == [] then []
    else
      var rest := Sources(edges[..|edges| - 1], b);
      var last := edges[|edges| - 1];
      if last.to.node == b then rest + [last.from.node] else rest
  }

  lemma {:induction false} SourcesAreArcs(edges: seq<Edge>, a: string, b: string)
    ensures a in Sources(edges, b) <==> (a, b) in ArcsOf(edges)
  {
    if edges != [] {
      var init, last := edges[..|edges| - 1], edges[|edges| - 1];
      SourcesAreArcs(init, a, b);
      assert edges == init + [last];
      assert (a, b) in ArcsOf(edges) <==> (a, b) in ArcsOf(init) || (last.from.node == a && last.to.node == b);
    }
  }

  method BuildPredecessors(g: Graph) returns (pred: map<string, seq<string>>)
    ensures pred.Keys == Ids(g) && forall b :: b in pred ==> pred[b] == Sources(g.edges, b)
  {
    pred := map[];
    for i := 0 to |g.nodes|
      invariant pred.Keys == (set j | 0 <= j < i :: g.nodes[j].id)
      invariant forall b :: b in pred ==> pred[b] == []
    {
      pred := pred[g.nodes[i].id := []];
    }
    assert pred.Keys == Ids(g);
    for i := 0 to |g.edges|
      invariant pred.Keys == Ids(g)
      invariant forall b :: b in pred ==> pred[b] == Sources(g.edges[..i], b)
    {
      var e := g.edges[i];
      assert g.edges[..i + 1][..i] == g.edges[..i];
      if e.to.node in pred {
        pred := pred[e.to.node := pred[e.to.node] + [e.from.node]];
      }
    }
    assert g.edges[..|g.edges|] == g.edges;
  }

  /** The entries of `ps` that already have a dominator. */
  function WithEntry(ps: seq<string>, idom: map<string, string>): (r: seq<string>)
    ensures forall p :: p in r <==> p in ps && p in idom
  {
    if ps == [] then []
    else
      var rest := WithEntry(ps[..|ps| - 1], idom);
      assert ps == ps[..|ps| - 1] + [ps[|ps| - 1]];
      if ps[|ps| - 1] in idom then rest + [ps[|ps| - 1]] else rest
  }

  // ----- Meeting two nodes -----

  type Positions = map<string, nat>

  ghost predicate Numbers(order: seq<string>, position: Positions) {
    && (forall v :: v in position <==> v in order)
    && (forall v :: v in position ==> position[v] < |order| && order[position[v]] == v)
    && (forall i :: 0 <= i < |order| ==> position[order[i]] == i)
  }

  method Enumerate(order: seq<string>) returns (position: Positions)
    requires Distinct(order)
    ensures Numbers(order, position)
  {
    position := map[];
    for i := 0 to |order|
      invariant forall v :: v in position ==> position[v] < i && order[position[v]] == v
      invariant forall j :: 0 <= j < i ==> order[j] in position && position[order[j]] == j
    {
      position := position[order[i] := i];
    }
  }

  /** The map, the positions and the tree describe the same nodes. */
  ghost predicate Describes(order: seq<string>, position: Positions, idom: map<string, string>, par: Parents) {
    forall key {:trigger Unlock(key)} :: Unlock(key) ==> Tree(par) && Represents(order, idom, par) && Numbers(order, position)
  }

  /** What a node has above it, by name. */
  ghost function Above'(position: Positions, par: Parents, v: string): set<int> {
    if v in position && Tree(par) && IsSet(par, position[v]) then Chain(par, position[v]) else {}
  }

  lemma Known(order: seq<string>, position: Positions, idom: map<string, string>, par: Parents, v: string)
    requires Describes(order, position, idom, par) && v in idom
    ensures v in position && idom[v] in idom
    ensures Tree(par) && IsSet(par, position[v]) && Above'(position, par, v) == Chain(par, position[v])
  {
    assert Unlock(true);
    var i := position[v];
    ChainIsSet(par, i, par[i]);
  }

  lemma ClimbKeeps(order: seq<string>, position: Positions, idom: map<string, string>, par: Parents, x: string, y: string)
    requires Describes(order, position, idom, par) && x in idom && y in idom
    requires x in position && y in position && position[x] > position[y]
    ensures idom[x] in idom && idom[x] in position && position[idom[x]] < position[x]
    ensures Above'(position, par, idom[x]) * Above'(position, par, y) == Above'(position, par, x) * Above'(position, par, y)
    ensures Above'(position, par, y) * Above'(position, par, idom[x]) == Above'(position, par, x) * Above'(position, par, y)
    ensures Above'(position, par, y) * Above'(position, par, x) == Above'(position, par, x) * Above'(position, par, y)
  {
    Known(order, position, idom, par, x);
    Known(order, position, idom, par, y);
    Known(order, position, idom, par, idom[x]);
    assert Unlock(true);
  }

  lemma SamePosition(order: seq<string>, position: Positions, idom: map<string, string>, par: Parents, x: string, y: string)
    requires Describes(order, position, idom, par) && x in idom && y in idom
    ensures x in position && y in position && (position[x] == position[y] ==> x == y)
  {
    assert Unlock(true);
  }

  /** Walk both nodes up the tree until they meet. */
  method Intersect(a: string, b: string, position: Positions, idom: map<string, string>,
                   ghost order: seq<string>, ghost par: Parents)
    returns (x: string)
    requires Describes(order, position, idom, par) && a in idom && b in idom
    ensures x in idom
    ensures Above'(position, par, x) == Above'(position, par, a) * Above'(position, par, b)
  {
    x := a;
    var y := b;
    SamePosition(order, position, idom, par, x, y);
    ghost var both := Above'(position, par, a) * Above'(position, par, b);
    while x != y
      invariant x in idom && y in idom && x in position && y in position
      invariant Above'(position, par, x) * Above'(position, par, y) == both
      decreases position[x] + position[y]
    {
      SamePosition(order, position, idom, par, x, y);
      ghost var sum := position[x] + position[y];
      while position[x] > position[y]
        invariant x in idom && x in position && position[x] + position[y] <= sum
        invariant position[x] == position[y] ==> position[x] + position[y] < sum
        invariant Above'(position, par, x) * Above'(position, par, y) == both
        decreases position[x]
      {
        ClimbKeeps(order, position, idom, par, x, y);
        x := idom[x];
      }
      while position[y] > position[x]
        invariant y in idom && y in position && position[x] + position[y] <= sum
        invariant position[y] <= position[x] ==> position[x] + position[y] < sum
        invariant Above'(position, par, x) * Above'(position, par, y) == both
        decreases position[y]
      {
        ClimbKeeps(order, position, idom, par, y, x);
        y := idom[y];
      }
    }
  }

  /** What every node of `ps` has above it. */
  ghost function Shared(position: Positions, par: Parents, ps: seq<string>): set<int>
    requires ps != []
  {
    if |ps| == 1 then Above'(position, par, ps[0])
    else Shared(position, par, ps[..|ps| - 1]) * Above'(position, par, ps[|ps| - 1])
  }

  lemma {:induction false} SharedIsAboveAll(position: Positions, par: Parents, ps: seq<string>, e: int)
    requires ps != []
    ensures e in Shared(position, par, ps) <==> forall p :: p in ps ==> e in Above'(position, par, p)
  {
    if |ps| > 1 {
      SharedIsAboveAll(position, par, ps[..|ps| - 1], e);
      assert ps == ps[..|ps| - 1] + [ps[|ps| - 1]];
    }
  }

  /** Fold the predecessors of one node together, two at a time. */
  method MeetAll(ps: seq<string>, position: Positions, idom: map<string, string>,
                 ghost order: seq<string>, ghost par: Parents)
    returns (candidate: string)
    requires Describes(order, position, idom, par) && ps != [] && forall p :: p in ps ==> p in idom
    ensures candidate in idom && Above'(position, par, candidate) == Shared(position, par, ps)
  {
    candidate := ps[0];
    for i := 1 to |ps|
      invariant candidate in idom && Above'(position, par, candidate) == Shared(position, par, ps[..i])
    {
      candidate := Intersect(candidate, ps[i], position, idom, order, par);
      ghost var done := ps[..i + 1];
      assert done[..|done| - 1] == ps[..i] && done[|done| - 1] == ps[i];
      assert Shared(position, par, done) == Shared(position, par, ps[..i]) * Above'(position, par, ps[i]);
    }
    assert ps[..|ps|] == ps;
  }

  /** The predecessors of node `n` that have a parent. */
  ghost predicate ArePreds(arcs: Arcs, order: seq<string>, idom: map<string, string>, n: int, ps: seq<string>)
    requires 0 <= n < |order|
  {
    forall p :: p in ps <==> (p, order[n]) in arcs && p in idom
  }

  /** Folding the predecessors of a node gives the deepest node above them all. */
  lemma SharedIsMeet(arcs: Arcs, order: seq<string>, position: Positions, idom: map<string, string>, par: Parents,
                     n: int, ps: seq<string>, c: string)
    requires Describes(order, position, idom, par) && 0 <= n < |order| && ArePreds(arcs, order, idom, n, ps)
    requires ps != [] && c in idom && Above'(position, par, c) == Shared(position, par, ps)
    ensures Tree(par) && c in position && Meet(PredsOf(arcs, order), par, n, position[c])
  {
    Known(order, position, idom, par, c);
    assert Unlock(true);
    var preds := PredsOf(arcs, order);
    var m := position[c];
    forall e, p | e in Chain(par, m) && (p, n) in preds && IsSet(par, p) ensures e in Chain(par, p) {
      assert order[p] in ps && position[order[p]] == p;
      SharedIsAboveAll(position, par, ps, e);
    }
    forall e | Above(preds, par, n, e) ensures e in Chain(par, m) {
      forall p | p in ps ensures e in Above'(position, par, p) {
        Known(order, position, idom, par, p);
        assert (position[p], n) in preds;
      }
      SharedIsAboveAll(position, par, ps, e);
    }
  }

  // ----- One pass over the nodes -----

  /** How far the parents can still move up. */
  ghost function Weight(par: Parents, top: nat): nat {
    if par == [] then 0
    else Weight(par[..|par| - 1], top) + if par[|par| - 1] < 0 then top else par[|par| - 1]
  }

  lemma {:induction false} WeightDrops(par: Parents, top: nat, n: nat, c: nat)
    requires n < |par| && if par[n] < 0 then c < top else c <= par[n]
    ensures Weight(par[n := c], top) <= Weight(par, top)
    ensures par[n] != c ==> Weight(par[n := c], top) < Weight(par, top)
  {
    var k := |par| - 1;
    if n < k {
      WeightDrops(par[..k], top, n, c);
      assert par[n := c][..k] == par[..k][n := c];
    } else {
      assert par[n := c][..k] == par[..k];
    }
  }

  /** Nodes before `n` have been visited; `cur` is the tree now, `par` was the tree when the pass began. */
  ghost predicate PassFacts(arcs: Arcs, order: seq<string>, cur: Parents, par: Parents, old': Parents, n: int) {
    && IsReversePostorder(arcs, order) && |par| == |order|
    && Boundary(PredsOf(arcs, order), par, old') && InPass(PredsOf(arcs, order), cur, par, n)
    && Over(DomsOf(arcs, order), cur)
  }

  ghost predicate Visited(arcs: Arcs, order: seq<string>, cur: Parents, par: Parents, old': Parents, n: int) {
    forall key {:trigger Unlock(key)} :: Unlock(key) ==> PassFacts(arcs, order, cur, par, old', n)
  }

  /** While nothing has changed, every visited node's parent is the meet of its predecessors. */
  ghost predicate Progress(preds: Preds, cur: Parents, par: Parents, n: int, changed: bool)
    requires Tree(cur)
  {
    && Weight(cur, |par|) <= Weight(par, |par|)
    && (changed ==> Weight(cur, |par|) < Weight(par, |par|))
    && (!changed ==> cur == par && forall j {:trigger Meet(preds, cur, j, cur[j])} :: 0 < j < n && j < |cur| ==> Meet(preds, cur, j, cur[j]))
  }

  lemma VisitTree(arcs: Arcs, order: seq<string>, cur: Parents, par: Parents, old': Parents, n: int, c: int, w: int)
    requires Visited(arcs, order, cur, par, old', n) && 0 < n < |order| && Tree(cur) && |cur| == |par| == |order|
    requires Meet(PredsOf(arcs, order), cur, n, c) && (w, n) in PredsOf(arcs, order) && IsSet(cur, w)
    ensures c < n && cur[n] == par[n] && (par[n] >= 0 ==> c <= par[n])
    ensures Visited(arcs, order, cur[n := c], par, old', n + 1) && Tree(cur[n := c])
  {
    assert Unlock(true);
    DomsOfOk(arcs, order);
    OverUpdate(DomsOf(arcs, order), PredsOf(arcs, order), cur, n, c, w);
    StepPass(PredsOf(arcs, order), cur, par, old', n, c);
  }

  lemma VisitDescribes(order: seq<string>, position: Positions, idom: map<string, string>, cur: Parents, n: int, c: string)
    requires Describes(order, position, idom, cur) && 0 < n < |order| && |cur| == |order|
    requires c in idom && c in position && Tree(cur[n := position[c]])
    ensures Describes(order, position, idom[order[n] := c], cur[n := position[c]])
    ensures order[n] in idom && idom[order[n]] == c <==> cur[n] == position[c]
  {
    assert Unlock(true);
    assert c in order;
    assert position[order[n]] == n;
  }

  lemma VisitProgress(preds: Preds, cur: Parents, par: Parents, n: int, changed: bool, c: int)
    requires 0 < n < |cur| && |cur| == |par| && 0 <= c < n && Tree(cur) && Tree(cur[n := c])
    requires Progress(preds, cur, par, n, changed) && Meet(preds, cur, n, c)
    requires cur[n] == par[n] && (par[n] >= 0 ==> c <= par[n])
    ensures Progress(preds, cur[n := c], par, n + 1, changed || cur[n] != c)
  {
    WeightDrops(cur, |par|, n, c);
    if cur[n] == c { assert cur[n := c] == cur; }
  }

  /** Some predecessor of a node already has a parent when the node is visited. */
  lemma SomePredecessor(arcs: Arcs, order: seq<string>, position: Positions, idom: map<string, string>, cur: Parents,
                        par: Parents, old': Parents, n: int)
    returns (w: int)
    requires Visited(arcs, order, cur, par, old', n) && Describes(order, position, idom, cur) && 0 < n < |order|
    ensures Tree(cur) && |cur| == |par| == |order|
    ensures 0 <= w < n && IsSet(cur, w) && (w, n) in PredsOf(arcs, order)
    ensures order[w] in idom && (order[w], order[n]) in arcs
  {
    assert Unlock(true);
    assert HasForward(PredsOf(arcs, order), n);
    w :| 0 <= w < n && (w, n) in PredsOf(arcs, order);
    PassSet(PredsOf(arcs, order), cur, par, n, w);
  }

  /** What holds between two passes. */
  ghost predicate Between(arcs: Arcs, order: seq<string>, par: Parents, old': Parents) {
    forall key {:trigger Unlock(key)} :: Unlock(key) ==>
      && IsReversePostorder(arcs, order) && |par| == |order|
      && Boundary(PredsOf(arcs, order), par, old') && Over(DomsOf(arcs, order), par)
  }

  lemma PassBegins(arcs: Arcs, order: seq<string>, par: Parents, old': Parents)
    requires Between(arcs, order, par, old')
    ensures Visited(arcs, order, par, par, old', 1) && Tree(par) && Progress(PredsOf(arcs, order), par, par, 1, false)
    ensures |par| == |order| && order != [] && order[0] == ROOT && Distinct(order)
  {
    assert Unlock(true);
  }

  lemma PredecessorsOf(g: Graph, order: seq<string>, idom: map<string, string>, n: int)
    requires 0 <= n < |order|
    ensures ArePreds(GraphArcs(g), order, idom, n, WithEntry(Sources(g.edges, order[n]), idom))
  {
    forall p ensures p in Sources(g.edges, order[n]) <==> (p, order[n]) in GraphArcs(g) {
      SourcesAreArcs(g.edges, p, order[n]);
    }
  }

  /** The state of a pass: the tree, the map that represents it, and whether anything has changed. */
  ghost predicate Passing(arcs: Arcs, order: seq<string>, position: Positions, idom: map<string, string>,
                          cur: Parents, par: Parents, old': Parents, n: int, changed: bool)
  {
    forall key {:trigger Unlock(key)} :: Unlock(key) ==>
      && Tree(cur) && |cur| == |par| == |order| && Visited(arcs, order, cur, par, old', n)
      && Describes(order, position, idom, cur) && Progress(PredsOf(arcs, order), cur, par, n, changed)
  }

  lemma VisitKeeps(arcs: Arcs, order: seq<string>, position: Positions, idom: map<string, string>, cur: Parents,
                   par: Parents, old': Parents, n: int, changed: bool, ps: seq<string>, c: string)
    requires Passing(arcs, order, position, idom, cur, par, old', n, changed) && 0 < n < |order| == |cur|
    requires ArePreds(arcs, order, idom, n, ps) && ps != []
    requires c in idom && c in position && Above'(position, cur, c) == Shared(position, cur, ps)
    ensures Passing(arcs, order, position, idom[order[n] := c], cur[n := position[c]], par, old', n + 1,
                    changed || order[n] !in idom || idom[order[n]] != c)
  {
    assert Unlock(true);
    var w := SomePredecessor(arcs, order, position, idom, cur, par, old', n);
    SharedIsMeet(arcs, order, position, idom, cur, n, ps, c);
    VisitTree(arcs, order, cur, par, old', n, position[c], w);
    VisitProgress(PredsOf(arcs, order), cur, par, n, changed, position[c]);
    VisitDescribes(order, position, idom, cur, n, c);
  }

  /** What a visit may rely on: the map fits, and there is a predecessor to start from. */
  lemma VisitReady(g: Graph, order: seq<string>, position: Positions, idom: map<string, string>, cur: Parents,
                   par: Parents, old': Parents, n: int, changed: bool)
    requires Passing(GraphArcs(g), order, position, idom, cur, par, old', n, changed) && 0 < n < |order|
    ensures Describes(order, position, idom, cur)
    ensures ArePreds(GraphArcs(g), order, idom, n, WithEntry(Sources(g.edges, order[n]), idom))
    ensures WithEntry(Sources(g.edges, order[n]), idom) != []
  {
    assert Unlock(true);
    PredecessorsOf(g, order, idom, n);
    var w := SomePredecessor(GraphArcs(g), order, position, idom, cur, par, old', n);
    assert order[w] in WithEntry(Sources(g.edges, order[n]), idom);
  }

  ghost function NotRoot(i: nat): nat {
    if i == 0 then 1 else i
  }

  /** Visit every node but the root in order and give it the meet of its predecessors. */
  method OnePass(g: Graph, predecessors: map<string, seq<string>>, order: seq<string>, position: Positions,
                 idom: map<string, string>, ghost par: Parents, ghost old': Parents)
    returns (next: map<string, string>, changed: bool, ghost cur: Parents)
    requires Between(GraphArcs(g), order, par, old') && Describes(order, position, idom, par)
    requires forall i :: 0 < i < |order| ==> order[i] in predecessors
    requires forall b :: b in predecessors ==> predecessors[b] == Sources(g.edges, b)
    ensures Passing(GraphArcs(g), order, position, next, cur, par, old', |order|, changed)
  {
    next, changed, cur := idom, false, par;
    ghost var arcs := GraphArcs(g);
    PassBegins(arcs, order, par, old');
    for i := 0 to |order|
      invariant |cur| == |order|
      invariant Passing(arcs, order, position, next, cur, par, old', NotRoot(i), changed)
    {
      var node := order[i];
      assert i > 0 ==> order[0] != order[i];
      if node == ROOT { continue; }
      var preds := WithEntry(predecessors[node], next);
      VisitReady(g, order, position, next, cur, par, old', i, changed);
      if preds != [] {
        var candidate := MeetAll(preds, position, next, order, cur);
        Known(order, position, next, cur, candidate);
        VisitKeeps(arcs, order, position, next, cur, par, old', i, changed, preds, candidate);
        cur := cur[i := position[candidate]];
        if node in next && next[node] == candidate {
          assert next[node := candidate] == next;
        } else {
          next, changed := next[node := candidate], true;
        }
      }
    }
  }

  lemma PassEnds(arcs: Arcs, order: seq<string>, position: Positions, idom: map<string, string>, cur: Parents,
                 par: Parents, old': Parents, changed: bool)
    requires Passing(arcs, order, position, idom, cur, par, old', |order|, changed)
    ensures Between(arcs, order, cur, par) && Describes(order, position, idom, cur)
    ensures changed ==> Weight(cur, |order|) < Weight(par, |order|)
    ensures !changed ==> Solution(arcs, order, idom, cur)
  {
    assert Unlock(true);
    EndPass(PredsOf(arcs, order), cur, par, old');
  }

  // ----- The whole computation -----

  ghost function Unplaced(n: nat): Parents
    requires n > 0
  {
    [0] + seq(n - 1, i requires 0 <= i < n - 1 => -1)
  }

  lemma FirstBoundary(arcs: Arcs, order: seq<string>, position: Positions)
    requires IsReversePostorder(arcs, order) && Numbers(order, position)
    ensures Between(arcs, order, Unplaced(|order|), Unplaced(|order|))
    ensures Describes(order, position, map[ROOT := ROOT], Unplaced(|order|))
  {
    OrderIsForward(arcs, order);
  }

  /** The immediate dominators from the input frontier, on every graph, cyclic or not. */
  method ComputeDominators(g: Graph) returns (idom: map<string, string>)
    requires WellFormed(g)
    ensures ImmediateDominators(GraphArcs(g), idom)
  {
    var successors := BuildSuccessors(g, {});
    var predecessors := BuildPredecessors(g);
    ghost var arcs := GraphArcs(g);
    KeptNothingRemoved(g.edges);
    SuccessorsAreArcs(g, successors);
    var order := ReversePostorder(successors);
    OrderIsKnown(g, order);
    var position := Enumerate(order);
    idom := map[ROOT := ROOT];
    ghost var par := Unplaced(|order|);
    ghost var old' := par;
    FirstBoundary(arcs, order, position);
    var changed := true;
    while changed
      invariant Between(arcs, order, par, old') && Describes(order, position, idom, par)
      invariant !changed ==> Solution(arcs, order, idom, par)
      decreases if changed then Weight(par, |order|) + 1 else 0
    {
      ghost var cur;
      idom, changed, cur := OnePass(g, predecessors, order, position, idom, par, old');
      PassEnds(arcs, order, position, idom, cur, par, old', changed);
      par, old' := cur, par;
    }
    ResultIsExact(arcs, order, idom, par);
  }

  lemma SuccessorsAreArcs(g: Graph, succ: Successors)
    requires WellFormed(g) && Adjacency(succ, Ids(g), g.edges)
    ensures Total(succ) && SuccArcs(succ) == GraphArcs(g)
  {
    AdjacencyArcs(succ, Ids(g), g.edges);
    forall a, b ensures (a, b) in SuccArcs(succ) <==> (a, b) in GraphArcs(g) {
      if (a, b) in GraphArcs(g) { var e :| e in g.edges && e.from.node == a && e.to.node == b; }
    }
    forall a, b | a in succ && b in succ[a] ensures b in succ {
      assert (a, b) in GraphArcs(g);
    }
  }

  lemma OrderIsKnown(g: Graph, order: seq<string>)
    requires WellFormed(g) && IsReversePostorder(GraphArcs(g), order)
    ensures forall i :: 0 < i < |order| ==> order[i] in Ids(g)
  {
    forall i | 0 < i < |order| ensures order[i] in Ids(g) {
      assert HasEarlier(GraphArcs(g), order, i);
      var j :| 0 <= j < i && (order[j], order[i]) in GraphArcs(g);
    }
  }

  // ----- Reading the chain -----

  /** The nodes that dominate `v`. */
  ghost function DominatorSet(arcs: Arcs, nodes: set<string>, v: string): set<string> {
    set d | d in nodes && Dominates(arcs, d, v)
  }

  lemma UpHasFewer(arcs: Arcs, idom: map<string, string>, v: string)
    requires ImmediateDominators(arcs, idom) && v in idom && v != ROOT
    ensures idom[v] in idom && idom[v] != v
    ensures DominatorSet(arcs, idom.Keys, idom[v]) == DominatorSet(arcs, idom.Keys, v) - {v}
  {
    var u := idom[v];
    assert StrictlyDominates(arcs, u, v);
    DominatorReachable(arcs, u, v);
    var q :| IsPathFrom(arcs, q, ROOT, v);
    if Dominates(arcs, v, u) { NoMutualDomination(arcs, v, u, q); }
    forall d ensures Dominates(arcs, d, u) <==> Dominates(arcs, d, v) && d != v {
      if Dominates(arcs, d, u) { DominatesTransitive(arcs, d, u, v); }
      if Dominates(arcs, d, v) && d != v { assert StrictlyDominates(arcs, d, v); }
    }
  }

  /** Between the node and `current`, every strict dominator has been collected. */
  ghost predicate Collected(arcs: Arcs, idom: map<string, string>, node: string, current: string, result: set<string>) {
    var all, above := DominatorSet(arcs, idom.Keys, node), DominatorSet(arcs, idom.Keys, current);
    && current in idom && current in above && above <= all
    && (current != node ==> node !in above)
    && result == all - {node} - (above - {current})
  }

  lemma CollectUp(arcs: Arcs, idom: map<string, string>, node: string, current: string, result: set<string>)
    requires ImmediateDominators(arcs, idom) && Collected(arcs, idom, node, current, result) && current != ROOT
    ensures Collected(arcs, idom, node, idom[current], result + {idom[current]})
  {
    UpHasFewer(arcs, idom, current);
    DominatesSelf(arcs, idom[current]);
  }

  lemma CollectedAll(arcs: Arcs, idom: map<string, string>, node: string, result: set<string>)
    requires ImmediateDominators(arcs, idom) && Collected(arcs, idom, node, ROOT, result)
    ensures forall d :: d in result <==> StrictlyDominates(arcs, d, node)
  {
    forall d ensures d in result <==> StrictlyDominates(arcs, d, node) {
      if Dominates(arcs, d, ROOT) { OnlyRootDominatesRoot(arcs, d); }
      if Dominates(arcs, d, node) { DominatorReachable(arcs, d, node); }
    }
  }

  /** The strict dominators of a reachable node, and none for an unreachable one. */
  method DominatorsOf(node: string, idom: map<string, string>, ghost arcs: Arcs) returns (result: set<string>)
    requires ImmediateDominators(arcs, idom)
    ensures forall d :: d in result <==> StrictlyDominates(arcs, d, node)
  {
    result := {};
    var current := node;
    if node in idom { DominatesSelf(arcs, node); }
    while current in idom
      invariant node !in idom ==> current == node && result == {}
      invariant node in idom ==> Collected(arcs, idom, node, current, result)
      decreases DominatorSet(arcs, idom.Keys, current)
    {
      var up := idom[current];
      if current != ROOT {
        UpHasFewer(arcs, idom, current);
        CollectUp(arcs, idom, node, current, result);
      } else {
        CollectedAll(arcs, idom, node, result);
      }
      if up == current { break; }
      result := result + {up};
      current := up;
    }
  }
}
