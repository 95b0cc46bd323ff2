/** The strongly connected components of a gate graph and the graph of components
    (`gate-v3-condense.ts`): an iterative Tarjan traversal and a canonical output. */
module Condense {
  import opened CodeUnitOrder
  import opened Reachability
  import opened GateGraph
  import opened TarjanInvariant

  /** The components found so far: sorted, each exactly one strongly connected component, no two
      sharing a node, together covering `done`. */
  ghost predicate ComponentsOk(arcs: Arcs, comps: seq<seq<string>>, done: set<string>) {
    && (forall c :: c in comps ==> ComponentOk(arcs, c))
    && (forall v :: v in done <==> exists c :: c in comps && v in c)
    && (forall i, j, v :: 0 <= i < j < |comps| && v in comps[i] ==> v !in comps[j])
  }

  ghost predicate ComponentOk(arcs: Arcs, c: seq<string>) {
    c != [] && Sorted(c, Le) && Distinct(c) && IsScc(arcs, Members(c))
  }

  lemma AddComponent(arcs: Arcs, comps: seq<seq<string>>, done: set<string>, c: seq<string>)
    requires ComponentsOk(arcs, comps, done) && ComponentOk(arcs, c) && Members(c) !! done
    ensures ComponentsOk(arcs, comps + [c], done + Members(c))
  {
    var more := comps + [c];
    forall v ensures v in done + Members(c) <==> exists d :: d in more && v in d {
      if v in done { var d :| d in comps && v in d; assert d in more; }
      if v in c { assert c in more; }
    }
    forall i, j, v | 0 <= i < j < |more| && v in more[i] ensures v !in more[j] {
      if j == |comps| { assert more[i] in comps && v in done; }
    }
  }

  /** How much the frames still have to look at. */
  ghost function Slack(succ: Successors, work: seq<(string, nat)>): nat {
    if work == [] then 0
    else
      var (v, pos) := work[|work| - 1];
      var left := if v in succ && pos <= |succ[v]| then |succ[v]| - pos else 0;
      Slack(succ, work[..|work| - 1]) + left + 1
  }

  lemma SlackAppend(succ: Successors, work: seq<(string, nat)>, v: string, pos: nat)
    requires v in succ && pos <= |succ[v]|
    ensures Slack(succ, work + [(v, pos)]) == Slack(succ, work) + |succ[v]| - pos + 1
  {
    assert (work + [(v, pos)])[..|work|] == work;
  }

  /** The nodes that neither have an index nor a frame that is about to give them one. */
  ghost function Unclaimed(succ: Successors, t: State): set<string> {
    succ.Keys - t.index.Keys - (if t.work != [] then {t.Top()} else {})
  }

  /** The measure of the traversal went down. */
  ghost predicate Advanced(succ: Successors, t: State, t': State) {
    || Unclaimed(succ, t') < Unclaimed(succ, t)
    || (Unclaimed(succ, t') == Unclaimed(succ, t) && Slack(succ, t'.work) < Slack(succ, t.work))
  }

  /** At the head of the loop, position zero marks a frame whose node has no index yet. */
  ghost predicate AtHead(t: State) {
    t.work != [] ==> (t.work[|t.work| - 1].1 == 0 <==> t.Fresh())
  }

  ghost predicate CanLook(succ: Successors, t: State) {
    && t.work != [] && !t.Fresh() && t.Top() in succ
    && t.work[|t.work| - 1].1 < |succ[t.Top()]|
  }

  lemma LookPossible(succ: Successors, t: State)
    requires Kept(succ, t) && CanLook(succ, t)
    ensures t.Top() in t.index && t.Top() in t.lowlink
    ensures succ[t.Top()][t.work[|t.work| - 1].1] in succ
    ensures Members(t.stack) <= t.index.Keys
  {
    Unfold(succ, t);
  }

  /** Looking at an arc keeps the invariant and brings the traversal forward. */
  lemma LookKeepsInv(succ: Successors, t: State, low: nat, pushed: seq<(string, nat)>)
    requires Kept(succ, t) && CanLook(succ, t)
    requires CanAdvance(succ, t, succ[t.Top()][t.work[|t.work| - 1].1], low, pushed)
    ensures var t' := Advance(t, low, pushed);
      Kept(succ, t') && Advanced(succ, t, t') && AtHead(t')
  {
    var k := |t.work| - 1;
    var (v, pos) := t.work[k];
    var next := succ[v][pos];
    LookPossible(succ, t);
    Unfold(succ, t);
    AdvanceKeepsInv(succ, t, next, low, pushed);
    Fold(succ, Advance(t, low, pushed));
    AdvanceOpen(succ, t, next, low, pushed);
    LookAdvances(succ, t, low, pushed);
  }

  lemma LookAdvances(succ: Successors, t: State, low: nat, pushed: seq<(string, nat)>)
    requires CanLook(succ, t) && t.Top() in t.index
    requires succ[t.Top()][t.work[|t.work| - 1].1] in succ
    requires CanAdvance(succ, t, succ[t.Top()][t.work[|t.work| - 1].1], low, pushed)
    ensures Advanced(succ, t, Advance(t, low, pushed))
  {
    var t', k := Advance(t, low, pushed), |t.work| - 1;
    var (v, pos) := t.work[k];
    if pushed == [] {
      SlackAppend(succ, t.work[..k], v, pos);
      SlackAppend(succ, t.work[..k], v, pos + 1);
      assert t.work == t.work[..k] + [(v, pos)];
      assert t'.work == t.work[..k] + [(v, pos + 1)];
    } else {
      var next := succ[v][pos];
      assert t'.Top() == next;
      assert next in Unclaimed(succ, t) && next !in Unclaimed(succ, t');
    }
  }

  lemma CloseFacts(succ: Successors, t: State)
    requires Kept(succ, t) && Exhausted(succ, t)
    ensures t.Top() in t.index && t.Top() in t.lowlink && t.lowlink[t.Top()] <= t.index[t.Top()]
    ensures |t.work| >= 2 ==> t.work[|t.work| - 2].0 in t.lowlink && t.work[|t.work| - 2].0 in t.index
    ensures Distinct(t.stack)
  {
    Unfold(succ, t);
    assert t.work[|t.work| - 1].0 == t.Top();
    assert t.Open(t.Top());
    assert LowOk(SuccArcs(succ), t, t.Top());
    assert |t.work| >= 2 ==> t.work[|t.work| - 2].0 in t.stack;
  }

  /** Closing the top frame, whatever its kind, brings the traversal forward. */
  lemma CloseAdvances(succ: Successors, t: State, t': State)
    requires Exhausted(succ, t) && t.Top() in t.index && t'.index == t.index
    requires t'.work == t.work[..|t.work| - 1] && (t'.work != [] ==> t'.Top() in t.index)
    ensures Advanced(succ, t, t')
  {
    assert t.work == t'.work + [t.work[|t.work| - 1]];
    SlackAppend(succ, t'.work, t.Top(), t.work[|t.work| - 1].1);
  }

  lemma ParentLooked(succ: Successors, t: State)
    requires WorkChain(succ, t) && |t.work| >= 2
    ensures t.work[|t.work| - 2].1 != 0
  {
    assert FrameOk(succ, t, |t.work| - 2);
  }

  lemma CloseInnerFacts(succ: Successors, t: State)
    requires Kept(succ, t) && Exhausted(succ, t) && |t.work| >= 2
    ensures AtHead(CloseInner(t)) && Advanced(succ, t, CloseInner(t))
  {
    Unfold(succ, t);
    AfterClosing(succ, t, CloseInner(t));
  }

  lemma AfterClosing(succ: Successors, t: State, t': State)
    requires Exhausted(succ, t) && Split(t) && WorkOnStack(t) && WorkChain(succ, t)
    requires t'.work == t.work[..|t.work| - 1] && t'.index == t.index
    ensures AtHead(t') && Advanced(succ, t, t')
  {
    CloseOpen(succ, t, t');
    if |t.work| >= 2 { ParentLooked(succ, t); }
    CloseAdvances(succ, t, t');
  }

  /** The first node of a complete component has a place on the stack, and its parent is older. */
  lemma RootPlace(arcs: Arcs, succ: Successors, t: State) returns (m: nat)
    requires WorkOnStack(t) && LowSound(arcs, t) && Exhausted(succ, t) && t.Low(t.Top()) == t.Idx(t.Top())
    ensures AtRoot(succ, t, m)
    ensures |t.work| >= 2 ==> t.Low(t.work[|t.work| - 2].0) <= t.Low(t.Top())
  {
    var k := |t.work| - 1;
    assert t.work[k].0 == t.Top() && t.work[k].0 in t.stack;
    m :| 0 <= m < |t.stack| && t.stack[m] == t.Top();
    if k >= 1 {
      var parent := t.work[k - 1].0;
      assert t.Open(parent) && t.Idx(parent) < t.Idx(t.Top());
      assert LowOk(arcs, t, parent);
    }
  }

  lemma RootFacts(succ: Successors, t: State) returns (m: nat)
    requires Kept(succ, t) && Exhausted(succ, t) && t.Low(t.Top()) == t.Idx(t.Top())
    ensures AtRoot(succ, t, m)
    ensures |t.work| >= 2 ==> t.Low(t.work[|t.work| - 2].0) <= t.Low(t.Top())
    ensures IsScc(SuccArcs(succ), Members(t.stack[m..])) && Members(t.stack[m..]) !! t.done
    ensures AtHead(CloseRoot(t, m)) && Advanced(succ, t, CloseRoot(t, m))
  {
    Unfold(succ, t);
    m := RootPlace(SuccArcs(succ), succ, t);
    ComponentIsScc(succ, t, m);
    SegmentApart(t, m);
    CloseRootFacts(succ, t, m);
  }

  lemma SegmentApart(t: State, m: nat)
    requires Split(t) && m <= |t.stack|
    ensures Members(t.stack[m..]) !! t.done
  {
    assert forall x :: x in t.stack[m..] ==> x in t.stack;
  }

  lemma CloseRootFacts(succ: Successors, t: State, m: nat)
    requires Kept(succ, t) && AtRoot(succ, t, m)
    ensures AtHead(CloseRoot(t, m)) && Advanced(succ, t, CloseRoot(t, m))
  {
    Unfold(succ, t);
    AfterClosing(succ, t, CloseRoot(t, m));
  }

  lemma SortedComponent(arcs: Arcs, members: seq<string>, segment: seq<string>)
    requires multiset(members) == multiset(segment) && Distinct(segment)
    requires IsScc(arcs, Members(segment))
    ensures ComponentOk(arcs, Sort(members, Le)) && Members(Sort(members, Le)) == Members(segment)
  {
    LeIsTotalOrder();
    var c := Sort(members, Le);
    SortSorted(members, Le);
    SameElements(c, segment);
    DistinctIsSingle(segment);
    SingleIsDistinct(c);
    assert Members(c) == Members(segment);
  }

  lemma SegmentDistinct(s: seq<string>, m: nat)
    requires Distinct(s) && m <= |s|
    ensures Distinct(s[m..])
  {}

  lemma TurnFacts(succ: Successors, t: State)
    requires Kept(succ, t) && t.work != []
    ensures t.Top() in succ && t.work[|t.work| - 1].1 <= |succ[t.Top()]|
  {
    Unfold(succ, t);
    assert FrameOk(succ, t, |t.work| - 1);
  }

  lemma TopFrame(succ: Successors, t: State)
    requires Kept(succ, t) && t.work != [] && !t.Fresh()
    ensures t.Top() in succ && t.work[|t.work| - 1].1 <= |succ[t.Top()]| && t.Top() in t.index
  {
    Unfold(succ, t);
    TurnFacts(succ, t);
  }

  lemma StartMeasure(succ: Successors, t: State)
    requires t.work != []
    ensures Unclaimed(succ, Start(t)) == Unclaimed(succ, t)
    ensures t.index.Keys <= Start(t).index.Keys && t.Top() in Start(t).index
  {}

  /** Follow the next arc of the top frame: open a frame for a node not seen yet, or lower the low-link
      to the index of a node still on the stack. */
  method FollowArc(succ: Successors, index: map<string, nat>, lowlink: map<string, nat>, onStack: set<string>,
                   work: seq<(string, nat)>, ghost t: State)
    returns (lowlink': map<string, nat>, work': seq<(string, nat)>, ghost low: nat, ghost pushed: seq<(string, nat)>)
    requires t.index == index && t.lowlink == lowlink && t.work == work && onStack == Members(t.stack)
    requires CanLook(succ, t) && t.Top() in index && t.Top() in lowlink
    requires onStack <= index.Keys
    ensures CanAdvance(succ, t, succ[t.Top()][work[|work| - 1].1], low, pushed)
    ensures t.(lowlink := lowlink', work := work') == Advance(t, low, pushed)
  {
    var k := |work| - 1;
    var (node, position) := work[k];
    var next := succ[node][position];
    lowlink', low, pushed := lowlink, lowlink[node], [];
    work' := work[..k] + [(node, position + 1)];
    if next !in index {
      work' := work' + [(next, 0)];
      pushed := [(next, 0)];
    } else if next in onStack {
      low := if index[next] < lowlink[node] then index[next] else lowlink[node];
      lowlink' := lowlink[node := if index[next] < lowlink[node] then index[next] else lowlink[node]];
    }
    assert lowlink' == lowlink[node := low];
  }

  /** Drop the top frame and pass its low-link on to the parent. */
  method PopFrame(lowlink: map<string, nat>, work: seq<(string, nat)>, ghost t: State)
    returns (lowlink': map<string, nat>, work': seq<(string, nat)>)
    requires t.lowlink == lowlink && t.work == work && work != [] && t.Top() in lowlink
    requires |work| >= 2 ==> work[|work| - 2].0 in lowlink
    ensures work' == work[..|work| - 1]
    ensures lowlink' == if |work| >= 2 then Merged(t) else lowlink
  {
    var node := work[|work| - 1].0;
    work', lowlink' := work[..|work| - 1], lowlink;
    if work' != [] {
      var parent := work'[|work'| - 1].0;
      lowlink' := lowlink[parent := if lowlink[node] < lowlink[parent] then lowlink[node] else lowlink[parent]];
    }
  }

  /** Pop the stack down to and including `node`, the first node of a component. */
  method PopComponent(stack: seq<string>, onStack: set<string>, node: string, ghost m: nat)
    returns (stack': seq<string>, onStack': set<string>, members: seq<string>)
    requires m < |stack| && stack[m] == node && Distinct(stack) && onStack == Members(stack)
    ensures stack' == stack[..m] && onStack' == Members(stack')
    ensures multiset(members) == multiset(stack[m..])
  {
    members, stack', onStack' := [], stack, onStack;
    while true
      invariant m < |stack'| <= |stack| && stack' == stack[..|stack'|]
      invariant onStack' == Members(stack')
      invariant multiset(members) == multiset(stack[|stack'|..])
      decreases |stack'|
    {
      var k := |stack'| - 1;
      var member := stack'[k];
      assert stack[k..] == [member] + stack[k + 1..];
      assert stack' == stack'[..k] + [member];
      assert member !in stack'[..k];
      stack' := stack'[..k];
      onStack' := onStack' - {member};
      members := members + [member];
      if member == node { break; }
    }
  }

  /** The variables of the traversal, as one value. */
  datatype Run = Run(
    index: map<string, nat>, lowlink: map<string, nat>, counter: nat,
    onStack: set<string>, stack: seq<string>, work: seq<(string, nat)>, components: seq<seq<string>>)

  ghost function Seen(r: Run, done: set<string>): State {
    State(r.index, r.lowlink, r.counter, r.stack, r.work, done)
  }

  /** What holds between the steps of a turn. */
  ghost predicate Sound(succ: Successors, r: Run, done: set<string>) {
    && Kept(succ, Seen(r, done))
    && r.onStack == Members(r.stack)
    && ComponentsOk(SuccArcs(succ), r.components, done)
  }

  lemma StartKeeps(succ: Successors, t: State)
    requires Kept(succ, t) && t.Fresh()
    ensures Kept(succ, Start(t)) && !Start(t).Fresh()
  {
    Unfold(succ, t);
    StartKeepsInv(succ, t);
    Fold(succ, Start(t));
  }

  lemma CloseInnerKeeps(succ: Successors, t: State)
    requires Kept(succ, t) && Exhausted(succ, t) && t.Low(t.Top()) < t.Idx(t.Top())
    ensures |t.work| >= 2 && Kept(succ, CloseInner(t))
  {
    Unfold(succ, t);
    CloseInnerKeepsInv(succ, t);
    Fold(succ, CloseInner(t));
  }

  lemma CloseRootKeeps(succ: Successors, t: State, m: nat)
    requires Kept(succ, t) && AtRoot(succ, t, m)
    ensures Kept(succ, CloseRoot(t, m))
  {
    Unfold(succ, t);
    CloseRootKeepsInv(succ, t, m);
    Fold(succ, CloseRoot(t, m));
  }

  lemma OpenKeeps(succ: Successors, t: State, root: string)
    requires Kept(succ, t) && t.work == [] && root in succ && root !in t.index
    ensures Kept(succ, t.(work := [(root, 0)])) && t.(work := [(root, 0)]).Fresh()
  {
    Unfold(succ, t);
    OpenKeepsInv(succ, t, root);
    Fold(succ, t.(work := [(root, 0)]));
  }

  lemma InitiallyKept(succ: Successors)
    requires Total(succ)
    ensures Kept(succ, State(map[], map[], 0, [], [], {}))
  {
    Fold(succ, State(map[], map[], 0, [], [], {}));
  }

  lemma FinallyDone(succ: Successors, t: State)
    requires Kept(succ, t) && t.work == [] && succ.Keys <= t.index.Keys
    ensures t.done == succ.Keys
  {
    Unfold(succ, t);
    EmptyWorkEmptyStack(succ, t);
  }

  /** Give the node of the top frame its index and put it on the stack. */
  method IndexTop(r: Run, ghost done: set<string>) returns (r': Run)
    requires r.work != [] && r.onStack == Members(r.stack)
    ensures Seen(r', done) == Start(Seen(r, done)) && r'.components == r.components
    ensures r'.onStack == Members(r'.stack)
  {
    var node := r.work[|r.work| - 1].0;
    r' := r.(index := r.index[node := r.counter], lowlink := r.lowlink[node := r.counter],
             counter := r.counter + 1, stack := r.stack + [node], onStack := r.onStack + {node});
  }

  method Begin(succ: Successors, r: Run, ghost done: set<string>) returns (r': Run)
    requires Sound(succ, r, done) && AtHead(Seen(r, done)) && r.work != []
    ensures Sound(succ, r', done) && !Seen(r', done).Fresh() && r'.work == r.work
    ensures Unclaimed(succ, Seen(r', done)) == Unclaimed(succ, Seen(r, done))
    ensures r.index.Keys <= r'.index.Keys && r.work[|r.work| - 1].0 in r'.index
  {
    var (node, position) := r.work[|r.work| - 1];
    if position != 0 { return r; }
    StartKeeps(succ, Seen(r, done));
    StartMeasure(succ, Seen(r, done));
    r' := IndexTop(r, done);
  }

  method Look(succ: Successors, r: Run, ghost done: set<string>) returns (r': Run)
    requires Sound(succ, r, done) && CanLook(succ, Seen(r, done))
    ensures Sound(succ, r', done) && AtHead(Seen(r', done)) && r'.index == r.index
    ensures Advanced(succ, Seen(r, done), Seen(r', done))
  {
    ghost var t := Seen(r, done);
    LookPossible(succ, t);
    var lowlink, work, low, pushed := FollowArc(succ, r.index, r.lowlink, r.onStack, r.work, t);
    LookKeepsInv(succ, t, low, pushed);
    r' := r.(lowlink := lowlink, work := work);
    assert Seen(r', done) == Advance(t, low, pushed);
  }

  method CloseFrame(succ: Successors, r: Run, ghost done: set<string>) returns (r': Run, ghost done': set<string>)
    requires Sound(succ, r, done) && Exhausted(succ, Seen(r, done))
    ensures Sound(succ, r', done') && AtHead(Seen(r', done')) && r'.index == r.index
    ensures Advanced(succ, Seen(r, done), Seen(r', done'))
  {
    ghost var t := Seen(r, done);
    CloseFacts(succ, t);
    var node := r.work[|r.work| - 1].0;
    if r.lowlink[node] == r.index[node] {
      r', done' := CloseFirst(succ, r, done);
    } else {
      CloseInnerKeeps(succ, t);
      CloseInnerFacts(succ, t);
      var lowlink, work := PopFrame(r.lowlink, r.work, t);
      r', done' := r.(lowlink := lowlink, work := work), done;
      assert Seen(r', done') == CloseInner(t);
    }
  }

  method CloseFirst(succ: Successors, r: Run, ghost done: set<string>) returns (r': Run, ghost done': set<string>)
    requires Sound(succ, r, done) && Exhausted(succ, Seen(r, done))
    requires Distinct(r.stack) && r.work[|r.work| - 1].0 in r.lowlink
    requires |r.work| >= 2 ==> r.work[|r.work| - 2].0 in r.lowlink
    requires Seen(r, done).Low(Seen(r, done).Top()) == Seen(r, done).Idx(Seen(r, done).Top())
    ensures Sound(succ, r', done') && AtHead(Seen(r', done')) && r'.index == r.index
    ensures Advanced(succ, Seen(r, done), Seen(r', done'))
  {
    ghost var m := RootFacts(succ, Seen(r, done));
    CloseRootKeeps(succ, Seen(r, done), m);
    r', done' := TakeComponent(SuccArcs(succ), r, done, m);
  }

  /** Close the frame of a component's first node and move the component off the stack. */
  method TakeComponent(ghost arcs: Arcs, r: Run, ghost done: set<string>, ghost m: nat)
    returns (r': Run, ghost done': set<string>)
    requires r.work != [] && r.work[|r.work| - 1].0 in r.lowlink
    requires |r.work| >= 2 ==>
      r.work[|r.work| - 2].0 in r.lowlink && r.lowlink[r.work[|r.work| - 2].0] <= r.lowlink[r.work[|r.work| - 1].0]
    requires m < |r.stack| && r.stack[m] == r.work[|r.work| - 1].0
    requires r.onStack == Members(r.stack) && Distinct(r.stack) && ComponentsOk(arcs, r.components, done)
    requires IsScc(arcs, Members(r.stack[m..])) && Members(r.stack[m..]) !! done
    ensures Seen(r', done') == CloseRoot(Seen(r, done), m)
    ensures r'.onStack == Members(r'.stack) && ComponentsOk(arcs, r'.components, done')
  {
    SegmentDistinct(r.stack, m);
    var lowlink, work := PopFrame(r.lowlink, r.work, Seen(r, done));
    assert lowlink == r.lowlink;
    var stack, onStack, members := PopComponent(r.stack, r.onStack, r.work[|r.work| - 1].0, m);
    SortedComponent(arcs, members, r.stack[m..]);
    AddComponent(arcs, r.components, done, Sort(members, Le));
    r' := r.(work := work, lowlink := lowlink, stack := stack, onStack := onStack,
             components := r.components + [Sort(members, Le)]);
    done' := done + Members(r.stack[m..]);
  }

  /** Run the traversal from one root until no frame is left. */
  method Explore(succ: Successors, r: Run, ghost done: set<string>, root: string)
    returns (r': Run, ghost done': set<string>)
    requires Sound(succ, r, done) && r.work == [] && root in succ && root !in r.index
    ensures Sound(succ, r', done') && r'.work == []
    ensures r.index.Keys + {root} <= r'.index.Keys
  {
    OpenKeeps(succ, Seen(r, done), root);
    r', done' := r.(work := [(root, 0)]), done;
    while r'.work != []
      invariant Sound(succ, r', done') && AtHead(Seen(r', done')) && r.index.Keys <= r'.index.Keys
      invariant root in r'.index || r'.work == [(root, 0)]
      decreases Unclaimed(succ, Seen(r', done')), Slack(succ, r'.work)
    {
      r' := Begin(succ, r', done');
      TopFrame(succ, Seen(r', done'));
      var (node, position) := r'.work[|r'.work| - 1];
      if position < |succ[node]| {
        r' := Look(succ, r', done');
      } else {
        r', done' := CloseFrame(succ, r', done');
      }
    }
  }

  /** Depth-first search from every root in turn, closing each strongly connected component when its
      first node is left. */
  method FindComponents(succ: Successors, roots: seq<string>) returns (components: seq<seq<string>>)
    requires Total(succ) && Members(roots) == succ.Keys
    ensures ComponentsOk(SuccArcs(succ), components, succ.Keys)
  {
    var r := Run(map[], map[], 0, {}, [], [], []);
    ghost var done: set<string> := {};
    InitiallyKept(succ);
    for i := 0 to |roots|
      invariant Sound(succ, r, done) && r.work == []
      invariant Members(roots[..i]) <= r.index.Keys
    {
      assert roots[i] in Members(roots);
      assert roots[..i + 1] == roots[..i] + [roots[i]];
      if roots[i] !in r.index {
        r, done := Explore(succ, r, done, roots[i]);
      }
    }
    assert roots[..|roots|] == roots;
    FinallyDone(succ, Seen(r, done));
    components := r.components;
  }

  // ----- The canonical output -----

  datatype Condensation = Condensation(
    components: seq<seq<string>>,
    componentOf: map<string, string>,
    edges: seq<(string, string)>,
    acyclic: bool)

  /** Components are ordered by their smallest member. */
  predicate HeadLe(a: seq<string>, b: seq<string>) {
    a == [] || (b != [] && Le(a[0], b[0]))
  }

  lemma HeadLeIsPreorder()
    ensures TotalPreorder(HeadLe)
  {
    LeIsTotalOrder();
  }

  ghost predicate Named(comps: seq<seq<string>>, componentOf: map<string, string>) {
    forall c, v :: c in comps && c != [] && v in c ==> v in componentOf && componentOf[v] == c[0]
  }

  /** The component arcs: images of arcs that join different components. */
  ghost predicate Crosses(arcs: Arcs, componentOf: map<string, string>, e: (string, string)) {
    e.0 != e.1 && exists a, b :: (a, b) in arcs && a in componentOf && b in componentOf
                                 && componentOf[a] == e.0 && componentOf[b] == e.1
  }

  ghost predicate EdgesExact(arcs: Arcs, c: Condensation) {
    forall e :: e in c.edges <==> Crosses(arcs, c.componentOf, e)
  }

  /** What a condensation of a graph is, independently of how it was found. */
  ghost predicate IsCondensation(ids: set<string>, arcs: Arcs, c: Condensation) {
    && ComponentsOk(arcs, c.components, ids)
    && Sorted(c.components, HeadLe)
    && c.componentOf.Keys == ids && Named(c.components, c.componentOf)
    && Sorted(c.edges, PairLe) && Distinct(c.edges)
    && EdgesExact(arcs, c)
    && (c.acyclic <==> forall m :: m in c.components ==> |m| == 1)
  }

  lemma ComponentsPermute(arcs: Arcs, comps: seq<seq<string>>, ids: set<string>)
    requires ComponentsOk(arcs, comps, ids)
    ensures ComponentsOk(arcs, Sort(comps, HeadLe), ids) && Sorted(Sort(comps, HeadLe), HeadLe)
  {
    var sorted := Sort(comps, HeadLe);
    HeadLeIsPreorder();
    SortSorted(comps, HeadLe);
    assert Distinct(comps) by {
      forall i, j | 0 <= i < j < |comps| ensures comps[i] != comps[j] {
        assert ComponentOk(arcs, comps[i]);
        assert comps[i][0] in comps[i];
      }
    }
    SortKeepsElements(comps, HeadLe);
    forall i, j, v | 0 <= i < j < |sorted| && v in sorted[i] ensures v !in sorted[j] {
      assert sorted[i] in comps && sorted[j] in comps;
      var p :| 0 <= p < |comps| && comps[p] == sorted[i];
      var q :| 0 <= q < |comps| && comps[q] == sorted[j];
      assert p != q;
    }
  }

  method NameComponents(ghost arcs: Arcs, comps: seq<seq<string>>, ghost ids: set<string>) returns (componentOf: map<string, string>)
    requires ComponentsOk(arcs, comps, ids)
    ensures componentOf.Keys == ids && Named(comps, componentOf)
  {
    componentOf := map[];
    for i := 0 to |comps|
      invariant forall v :: v in componentOf <==> exists k :: 0 <= k < i && v in comps[k]
      invariant forall k, v :: 0 <= k < i && comps[k] != [] && v in comps[k] ==> componentOf[v] == comps[k][0]
    {
      var members := comps[i];
      for j := 0 to |members|
        invariant forall v :: v in componentOf <==> v in members[..j] || exists k :: 0 <= k < i && v in comps[k]
        invariant forall k, v :: 0 <= k < i && comps[k] != [] && v in comps[k] ==> componentOf[v] == comps[k][0]
        invariant forall v :: v in members[..j] ==> componentOf[v] == members[0]
      {
        assert members[..j + 1] == members[..j] + [members[j]];
        assert forall k :: 0 <= k < i ==> members[j] !in comps[k];
        componentOf := componentOf[members[j] := members[0]];
      }
      assert members[..|members|] == members;
    }
    assert forall v :: v in componentOf ==> exists c :: c in comps && v in c;
  }

  method ComponentEdges(g: Graph, componentOf: map<string, string>) returns (edges: seq<(string, string)>)
    requires WellFormed(g) && componentOf.Keys == Ids(g)
    ensures Sorted(edges, PairLe) && Distinct(edges)
    ensures forall e :: e in edges <==> Crosses(GraphArcs(g), componentOf, e)
  {
    var edgeKeys: set<(string, string)> := {};
    edges := [];
    for i := 0 to |g.edges|
      invariant Distinct(edges)
      invariant forall e :: e in edges <==> e in edgeKeys
      invariant forall e :: e in edges <==> Crosses(ArcsOf(g.edges[..i]), componentOf, e)
    {
      var edge := g.edges[i];
      assert edge in g.edges;
      var key := (componentOf[edge.from.node], componentOf[edge.to.node]);
      CrossesMore(g.edges, i, componentOf);
      if key.0 != key.1 && key !in edgeKeys {
        edgeKeys := edgeKeys + {key};
        edges := edges + [key];
      }
    }
    assert g.edges[..|g.edges|] == g.edges;
    PairLeIsTotalOrder();
    SortSorted(edges, PairLe);
    SortKeepsElements(edges, PairLe);
    edges := Sort(edges, PairLe);
  }

  /** One more edge adds at most its own image. */
  lemma CrossesMore(edges: seq<Edge>, i: nat, componentOf: map<string, string>)
    requires i < |edges| && edges[i].from.node in componentOf && edges[i].to.node in componentOf
    ensures var key := (componentOf[edges[i].from.node], componentOf[edges[i].to.node]);
      forall e :: Crosses(ArcsOf(edges[..i + 1]), componentOf, e) <==>
        Crosses(ArcsOf(edges[..i]), componentOf, e) || (e == key && key.0 != key.1)
  {
    var last := edges[i];
    var before, after := ArcsOf(edges[..i]), ArcsOf(edges[..i + 1]);
    var arc := (last.from.node, last.to.node);
    assert edges[..i + 1] == edges[..i] + [last];
    assert forall a, b :: (a, b) in after <==> (a, b) in before || (a, b) == arc;
    forall e ensures Crosses(after, componentOf, e) <==>
      Crosses(before, componentOf, e) || (e == (componentOf[arc.0], componentOf[arc.1]) && e.0 != e.1)
    {
      if Crosses(before, componentOf, e) {
        var a, b :| (a, b) in before && a in componentOf && b in componentOf && componentOf[a] == e.0 && componentOf[b] == e.1;
        assert (a, b) in after;
      }
      assert arc in after && (arc.0, arc.1) in after;
    }
  }

  lemma SuccArcsAreGraphArcs(g: Graph, succ: Successors)
    requires WellFormed(g) && Adjacency(succ, Ids(g), g.edges)
    ensures SuccArcs(succ) == GraphArcs(g) && Total(succ)
  {
    AdjacencyArcs(succ, Ids(g), g.edges);
    forall a, b ensures (a, b) in SuccArcs(succ) <==> (a, b) in ArcsOf(g.edges) {
      if (a, b) in ArcsOf(g.edges) {
        var e :| e in g.edges && (e.from.node, e.to.node) == (a, b);
        assert a in succ && b in succ[a];
      }
    }
    forall e ensures e in SuccArcs(succ) <==> e in GraphArcs(g) {
      assert e == (e.0, e.1);
    }
    forall a, b | a in succ && b in succ[a] ensures b in succ {
      assert (a, b) in ArcsOf(g.edges);
    }
  }

  method CondenseGateGraph(g: Graph) returns (c: Condensation)
    requires WellFormed(g)
    ensures IsCondensation(Ids(g), GraphArcs(g), c)
  {
    var succ := BuildSuccessors(g, {});
    KeptNothingRemoved(g.edges);
    assert Ids(g) - {} == Ids(g);
    SuccArcsAreGraphArcs(g, succ);
    var roots := seq(|g.nodes|, i requires 0 <= i < |g.nodes| => g.nodes[i].id);
    assert Members(roots) == Ids(g) by {
      forall v | v in Ids(g) ensures v in roots {
        var i :| 0 <= i < |g.nodes| && g.nodes[i].id == v;
        assert roots[i] == v;
      }
    }
    var raw := FindComponents(succ, roots);
    ComponentsPermute(GraphArcs(g), raw, Ids(g));
    var components := Sort(raw, HeadLe);
    var componentOf := NameComponents(GraphArcs(g), components, Ids(g));
    var edges := ComponentEdges(g, componentOf);
    c := Condensation(components, componentOf, edges, forall m :: m in components ==> |m| == 1);
  }

  ghost predicate Disjoint(comps: seq<seq<string>>) {
    forall i, j, v :: 0 <= i < j < |comps| && v in comps[i] ==> v !in comps[j]
  }

  /** Exactly the components with more than one member, in the order of the components: every two
      different nodes that reach each other stand together in one refusal, and no node stands in two. */
  method VerifyGateGraphAcyclic(g: Graph) returns (refused: seq<seq<string>>)
    requires WellFormed(g)
    ensures refused == [] <==> forall a, b :: a in Ids(g) && b in Ids(g) && Mutual(GraphArcs(g), a, b) ==> a == b
    ensures forall m :: m in refused ==> |m| > 1 && ComponentOk(GraphArcs(g), m)
    ensures forall a, b :: a in Ids(g) && b in Ids(g) && a != b && Mutual(GraphArcs(g), a, b) ==>
      exists m :: m in refused && a in m && b in m
    ensures Disjoint(refused) && Sorted(refused, HeadLe)
  {
    var c := CondenseGateGraph(g);
    AcyclicMeaning(Ids(g), GraphArcs(g), c);
    if c.acyclic { return []; }
    refused := LargeComponents(c.components);
    forall a, b | a in Ids(g) && b in Ids(g) && a != b && Mutual(GraphArcs(g), a, b)
      ensures exists m :: m in refused && a in m && b in m
    {
      SharedHome(Ids(g), GraphArcs(g), c, a, b);
    }
  }

  /** Two different nodes that reach each other stand together in one component of several members. */
  lemma SharedHome(ids: set<string>, arcs: Arcs, c: Condensation, a: string, b: string)
    requires IsCondensation(ids, arcs, c) && a in ids && b in ids && a != b && Mutual(arcs, a, b)
    ensures exists m :: m in c.components && |m| > 1 && a in m && b in m
  {
    var m := ComponentHome(ids, arcs, c, a);
    MutualMember(arcs, m, a, b);
    var i :| 0 <= i < |m| && m[i] == a;
    var j :| 0 <= j < |m| && m[j] == b;
    assert i != j;
  }

  lemma MutualMember(arcs: Arcs, m: seq<string>, a: string, b: string)
    requires IsScc(arcs, Members(m)) && a in m && Mutual(arcs, a, b)
    ensures b in m
  {
    assert a in Members(m);
    assert b in Members(m);
  }

  method LargeComponents(comps: seq<seq<string>>) returns (large: seq<seq<string>>)
    requires Disjoint(comps) && Sorted(comps, HeadLe)
    ensures forall m :: m in large <==> m in comps && |m| > 1
    ensures Disjoint(large) && Sorted(large, HeadLe)
  {
    large := [];
    for i := 0 to |comps|
      invariant forall m :: m in large <==> m in comps[..i] && |m| > 1
      invariant Disjoint(large) && Sorted(large, HeadLe)
    {
      if |comps[i]| > 1 {
        forall p | 0 <= p < |large| ensures HeadLe(large[p], comps[i]) && forall v :: v in large[p] ==> v !in comps[i] {
          assert large[p] in large;
          var k :| 0 <= k < i && comps[..i][k] == large[p];
        }
        large := large + [comps[i]];
      }
    }
  }

  // ----- What a condensation says about its graph -----

  lemma ComponentHome(ids: set<string>, arcs: Arcs, c: Condensation, v: string) returns (m: seq<string>)
    requires IsCondensation(ids, arcs, c) && v in ids
    ensures m in c.components && v in m && ComponentOk(arcs, m) && c.componentOf[v] == m[0]
    ensures m[0] in ids && c.componentOf[m[0]] == m[0] && Mutual(arcs, v, m[0])
  {
    m :| m in c.components && v in m;
    assert ComponentOk(arcs, m);
    assert m[0] in m && m[0] in Members(m) && v in Members(m);
  }

  /** Two nodes share a component exactly when each reaches the other. */
  lemma SameComponent(ids: set<string>, arcs: Arcs, c: Condensation, a: string, b: string)
    requires IsCondensation(ids, arcs, c) && a in ids && b in ids
    ensures c.componentOf[a] == c.componentOf[b] <==> Mutual(arcs, a, b)
  {
    var m := ComponentHome(ids, arcs, c, a);
    var n := ComponentHome(ids, arcs, c, b);
    if m[0] == n[0] {
      ReachTransitive(arcs, a, m[0], b);
      ReachTransitive(arcs, b, m[0], a);
    }
    if Mutual(arcs, a, b) {
      assert a in Members(m) && b in Members(m);
    }
  }

  /** The name of a component is its smallest member. */
  lemma ComponentName(ids: set<string>, arcs: Arcs, c: Condensation, a: string, b: string)
    requires IsCondensation(ids, arcs, c) && a in ids && b in ids && Mutual(arcs, a, b)
    ensures NotAfter(c.componentOf[a], b) && c.componentOf[a] in ids && Mutual(arcs, a, c.componentOf[a])
  {
    var m := ComponentHome(ids, arcs, c, a);
    LeMeans(c.componentOf[a], b);
    SameComponent(ids, arcs, c, a, b);
    assert a in Members(m) && b in Members(m);
    LeIsTotalOrder();
    LeastFirst(m, b, Le);
  }

  ghost predicate PairNotAfter(a: (string, string), b: (string, string)) {
    if a.0 != b.0 then NotAfter(a.0, b.0) else NotAfter(a.1, b.1)
  }

  lemma MembersAscend(arcs: Arcs, components: seq<seq<string>>)
    requires forall m :: m in components ==> ComponentOk(arcs, m)
    ensures forall m :: m in components ==> m != [] && Ascending(m)
  {
    forall m | m in components ensures m != [] && Ascending(m) {
      assert ComponentOk(arcs, m);
      SortedAscends(m);
    }
  }

  ghost predicate HeadNotAfter(a: seq<string>, b: seq<string>) {
    a != [] && b != [] && NotAfter(a[0], b[0])
  }

  lemma HeadsAscend(components: seq<seq<string>>)
    requires Sorted(components, HeadLe) && forall m :: m in components ==> m != []
    ensures forall i, j :: 0 <= i < j < |components| ==> HeadNotAfter(components[i], components[j])
  {
    forall i, j | 0 <= i < j < |components| ensures HeadNotAfter(components[i], components[j]) {
      var a, b := components[i], components[j];
      assert a in components && b in components && HeadLe(a, b);
      LeMeans(a[0], b[0]);
    }
  }

  lemma PairsAscend(edges: seq<(string, string)>)
    requires Sorted(edges, PairLe)
    ensures forall i, j :: 0 <= i < j < |edges| ==> PairNotAfter(edges[i], edges[j])
  {
    forall i, j | 0 <= i < j < |edges| ensures PairNotAfter(edges[i], edges[j]) {
      assert PairLe(edges[i], edges[j]);
      LeMeans(edges[i].0, edges[j].0);
      LeMeans(edges[i].1, edges[j].1);
    }
  }

  /** Members stand in ascending order inside a component, components in the order of their first
      members, and component edges in the order of their ends, the source first. */
  lemma CondensationAscends(ids: set<string>, arcs: Arcs, c: Condensation)
    requires IsCondensation(ids, arcs, c)
    ensures forall m :: m in c.components ==> m != [] && Ascending(m)
    ensures forall i, j :: 0 <= i < j < |c.components| ==> HeadNotAfter(c.components[i], c.components[j])
    ensures forall i, j :: 0 <= i < j < |c.edges| ==> PairNotAfter(c.edges[i], c.edges[j]) && c.edges[i] != c.edges[j]
  {
    MembersAscend(arcs, c.components);
    HeadsAscend(c.components);
    PairsAscend(c.edges);
  }

  ghost function EdgeArcs(c: Condensation): Arcs {
    set e | e in c.edges
  }

  /** An arc of the graph is an arc between its components, or stays inside one. */
  lemma ArcProjects(arcs: Arcs, c: Condensation, a: string, b: string)
    requires EdgesExact(arcs, c) && (a, b) in arcs && a in c.componentOf && b in c.componentOf
    ensures Reach(EdgeArcs(c), c.componentOf[a], c.componentOf[b])
  {
    var x, y := c.componentOf[a], c.componentOf[b];
    ReachSelf(EdgeArcs(c), x);
    if x != y {
      assert Crosses(arcs, c.componentOf, (x, y));
      ReachArc(EdgeArcs(c), x, y);
    }
  }

  lemma {:induction false} PathProjects(arcs: Arcs, c: Condensation, p: seq<string>)
    requires EdgesExact(arcs, c) && IsPath(arcs, p)
    requires forall e :: e in arcs ==> e.0 in c.componentOf && e.1 in c.componentOf
    requires p[0] in c.componentOf
    ensures p[|p| - 1] in c.componentOf && Reach(EdgeArcs(c), c.componentOf[p[0]], c.componentOf[p[|p| - 1]])
    decreases |p|
  {
    ReachSelf(EdgeArcs(c), c.componentOf[p[0]]);
    if |p| > 1 {
      assert (p[0], p[1]) in arcs;
      PathPrefix(arcs, p, 1);
      PathProjects(arcs, c, p[1..]);
      ArcProjects(arcs, c, p[0], p[1]);
      ReachTransitive(EdgeArcs(c), c.componentOf[p[0]], c.componentOf[p[1]], c.componentOf[p[|p| - 1]]);
    }
  }

  lemma {:induction false} PathLifts(ids: set<string>, arcs: Arcs, c: Condensation, p: seq<string>, a: string, b: string)
    requires IsCondensation(ids, arcs, c) && IsPath(EdgeArcs(c), p) && a in ids && b in ids
    requires p[0] == c.componentOf[a] && p[|p| - 1] == c.componentOf[b]
    ensures Reach(arcs, a, b)
    decreases |p|
  {
    if |p| == 1 {
      SameComponent(ids, arcs, c, a, b);
    } else {
      assert (p[0], p[1]) in EdgeArcs(c);
      var u, v :| (u, v) in arcs && u in ids && v in ids && c.componentOf[u] == p[0] && c.componentOf[v] == p[1];
      PathPrefix(EdgeArcs(c), p, 1);
      PathLifts(ids, arcs, c, p[1..], v, b);
      SameComponent(ids, arcs, c, a, u);
      ArcThenReach(arcs, u, v, b);
      ReachTransitive(arcs, a, u, b);
    }
  }

  /** The component graph preserves reachability, both ways. */
  lemma ReachPreserved(ids: set<string>, arcs: Arcs, c: Condensation, a: string, b: string)
    requires IsCondensation(ids, arcs, c) && a in ids && b in ids
    requires forall e :: e in arcs ==> e.0 in ids && e.1 in ids
    ensures Reach(arcs, a, b) <==> Reach(EdgeArcs(c), c.componentOf[a], c.componentOf[b])
  {
    if Reach(arcs, a, b) {
      var p :| IsPathFrom(arcs, p, a, b);
      PathProjects(arcs, c, p);
    }
    if Reach(EdgeArcs(c), c.componentOf[a], c.componentOf[b]) {
      var p :| IsPathFrom(EdgeArcs(c), p, c.componentOf[a], c.componentOf[b]);
      PathLifts(ids, arcs, c, p, a, b);
    }
  }

  /** The component graph has no cycle: no path of one or more arcs comes back to its start. */
  lemma ComponentGraphIsAcyclic(ids: set<string>, arcs: Arcs, c: Condensation, p: seq<string>)
    requires IsCondensation(ids, arcs, c) && forall e :: e in arcs ==> e.0 in ids && e.1 in ids
    requires IsPath(EdgeArcs(c), p) && |p| > 1
    ensures p[0] != p[|p| - 1]
  {
    var x, y := p[0], p[1];
    assert (x, y) in EdgeArcs(c);
    assert Crosses(arcs, c.componentOf, (x, y));
    var u, v :| (u, v) in arcs && c.componentOf[u] == x && c.componentOf[v] == y;
    ReachArc(arcs, u, v);
    SameComponent(ids, arcs, c, u, v);
    if p[0] == p[|p| - 1] {
      PathPrefix(EdgeArcs(c), p, 1);
      PathLifts(ids, arcs, c, p[1..], v, u);
    }
  }

  /** `acyclic` holds exactly when no two different nodes reach each other; an arc from a node to
      itself does not count. */
  lemma AcyclicMeaning(ids: set<string>, arcs: Arcs, c: Condensation)
    requires IsCondensation(ids, arcs, c)
    ensures c.acyclic <==> forall a, b :: a in ids && b in ids && Mutual(arcs, a, b) ==> a == b
  {
    if c.acyclic {
      forall a, b | a in ids && b in ids && Mutual(arcs, a, b) ensures a == b {
        var m := ComponentHome(ids, arcs, c, a);
        assert a in Members(m) && b in Members(m);
      }
    } else {
      var m :| m in c.components && |m| != 1;
      TwoMembers(arcs, c.components, ids, m);
    }
  }

  lemma TwoMembers(arcs: Arcs, comps: seq<seq<string>>, ids: set<string>, m: seq<string>)
    requires ComponentsOk(arcs, comps, ids) && m in comps && |m| != 1
    ensures |m| >= 2 && m[0] in ids && m[1] in ids && m[0] != m[1] && Mutual(arcs, m[0], m[1])
  {
    assert ComponentOk(arcs, m);
    assert m[0] in m && m[1] in m;
    assert m[0] in Members(m) && m[1] in Members(m);
  }

  // ----- The output is canonical -----

  lemma SameComponentSequence(ids: set<string>, arcs: Arcs, cs: seq<seq<string>>, ds: seq<seq<string>>, m: seq<string>)
    requires ComponentsOk(arcs, cs, ids) && ComponentsOk(arcs, ds, ids) && m in cs
    ensures m in ds
  {
    assert ComponentOk(arcs, m);
    var v := m[0];
    assert v in m && v in ids;
    var n :| n in ds && v in n;
    assert ComponentOk(arcs, n);
    SameScc(arcs, m, n, v);
  }

  lemma SameScc(arcs: Arcs, m: seq<string>, n: seq<string>, v: string)
    requires ComponentOk(arcs, m) && ComponentOk(arcs, n) && v in m && v in n
    ensures m == n
  {
    forall x ensures x in m <==> x in n {
      assert v in Members(m) && v in Members(n);
      assert x in Members(m) <==> x in Members(n);
    }
    LeIsTotalOrder();
    DistinctSameElements(m, n);
    SortedUnique(m, n, Le);
  }

  lemma ComponentsDistinct(arcs: Arcs, comps: seq<seq<string>>, ids: set<string>)
    requires ComponentsOk(arcs, comps, ids)
    ensures Distinct(comps)
    ensures forall m, n :: m in comps && n in comps && HeadLe(m, n) && HeadLe(n, m) ==> m == n
  {
    forall i, j | 0 <= i < j < |comps| ensures comps[i] != comps[j] {
      assert ComponentOk(arcs, comps[i]);
      assert comps[i][0] in comps[i];
    }
    forall m, n | m in comps && n in comps && HeadLe(m, n) && HeadLe(n, m) ensures m == n {
      assert ComponentOk(arcs, m) && ComponentOk(arcs, n);
      LeIsTotalOrder();
      SameScc(arcs, m, n, m[0]);
    }
  }

  lemma SameComponents(ids: set<string>, arcs: Arcs, cs: seq<seq<string>>, ds: seq<seq<string>>)
    requires ComponentsOk(arcs, cs, ids) && ComponentsOk(arcs, ds, ids)
    requires Sorted(cs, HeadLe) && Sorted(ds, HeadLe)
    ensures cs == ds
  {
    forall m ensures m in cs <==> m in ds {
      if m in cs { SameComponentSequence(ids, arcs, cs, ds, m); }
      if m in ds { SameComponentSequence(ids, arcs, ds, cs, m); }
    }
    ComponentsDistinct(arcs, cs, ids);
    ComponentsDistinct(arcs, ds, ids);
    DistinctSameElements(cs, ds);
    HeadLeIsPreorder();
    SortedUnique(cs, ds, HeadLe);
  }

  lemma SameNames(ids: set<string>, arcs: Arcs, cs: seq<seq<string>>, f: map<string, string>, g: map<string, string>)
    requires ComponentsOk(arcs, cs, ids) && f.Keys == g.Keys == ids && Named(cs, f) && Named(cs, g)
    ensures f == g
  {
    forall v | v in ids ensures f[v] == g[v] {
      var m :| m in cs && v in m;
      assert m != [];
    }
  }

  /** Graphs with the same nodes and the same arcs condense to the same value, whatever the order of
      their wires and of the traversal. */
  lemma CondensationIsUnique(ids: set<string>, arcs: Arcs, c: Condensation, d: Condensation)
    requires IsCondensation(ids, arcs, c) && IsCondensation(ids, arcs, d)
    ensures c == d
  {
    SameComponents(ids, arcs, c.components, d.components);
    SameNames(ids, arcs, c.components, c.componentOf, d.componentOf);
    SameEdges(arcs, c, d);
  }

  lemma SameEdges(arcs: Arcs, c: Condensation, d: Condensation)
    requires EdgesExact(arcs, c) && EdgesExact(arcs, d) && c.componentOf == d.componentOf
    requires Sorted(c.edges, PairLe) && Distinct(c.edges) && Sorted(d.edges, PairLe) && Distinct(d.edges)
    ensures c.edges == d.edges
  {
    forall e ensures e in c.edges <==> e in d.edges {
      assert e in c.edges <==> Crosses(arcs, c.componentOf, e);
    }
    PairLeIsTotalOrder();
    DistinctSameElements(c.edges, d.edges);
    SortedUnique(c.edges, d.edges, PairLe);
  }
}
