/** What the iterative Tarjan traversal of `gate-v3-condense.ts` keeps true, step by step. */
module TarjanInvariant {
  import opened Reachability
  import opened Folding
  import opened GateGraph

  /** `done` collects the members of the components closed so far. */
  datatype State = State(
    index: map<string, nat>,
    lowlink: map<string, nat>,
    counter: nat,
    stack: seq<string>,
    work: seq<(string, nat)>,
    done: set<string>)
  {
    function Idx(v: string): int {
      if v in index then index[v] else -1
    }

    function Low(v: string): int {
      if v in lowlink then lowlink[v] else -1
    }

    function Top(): string
      requires work != []
    {
      work[|work| - 1].0
    }

    /** The top frame is new: its node has no index yet. */
    ghost predicate Fresh() {
      work != [] && Top() !in index
    }

    /** The number of frames whose node has been given an index. */
    ghost function Started(): nat {
      if Fresh() then |work| - 1 else |work|
    }

    /** `x` has a started frame. */
    ghost predicate Open(x: string) {
      exists i :: 0 <= i < Started() && work[i].0 == x
    }
  }

  /** A strongly connected component: non-empty, and exactly the nodes mutually reachable with each member. */
  ghost predicate IsScc(arcs: Arcs, c: set<string>) {
    && c != {}
    && forall a, b :: a in c ==> (b in c <==> Mutual(arcs, a, b))
  }

  ghost predicate Indexed(t: State) {
    && t.lowlink.Keys == t.index.Keys
    && forall v :: v in t.index ==> t.Idx(v) < t.counter
  }

  ghost predicate StackOrdered(t: State) {
    forall i, j :: 0 <= i < j < |t.stack| ==> t.Idx(t.stack[i]) < t.Idx(t.stack[j])
  }

  ghost predicate Split(t: State) {
    && (forall v :: v in t.index <==> v in t.stack || v in t.done)
    && forall v :: v in t.stack ==> v !in t.done
  }

  ghost predicate DoneClosed(succ: Successors, t: State) {
    forall v, w :: v in t.done && v in succ && w in succ[v] ==> w in t.done
  }

  ghost predicate FrameOk(succ: Successors, t: State, i: int)
    requires 0 <= i < |t.work|
  {
    && t.work[i].0 in succ && t.work[i].1 <= |succ[t.work[i].0]|
    && (i < |t.work| - 1 ==> t.work[i].1 >= 1 && succ[t.work[i].0][t.work[i].1 - 1] == t.work[i + 1].0)
  }

  /** The frames follow arcs: each frame was opened by the last arc its parent looked at. */
  ghost predicate WorkChain(succ: Successors, t: State) {
    && (forall i {:trigger FrameOk(succ, t, i)} :: 0 <= i < |t.work| ==> FrameOk(succ, t, i))
    && (t.Fresh() ==> t.work[|t.work| - 1].1 == 0)
  }

  ghost predicate WorkOnStack(t: State) {
    && (forall i :: 0 <= i < t.Started() ==> t.work[i].0 in t.stack)
    && (forall i, j :: 0 <= i < j < t.Started() ==> t.Idx(t.work[i].0) < t.Idx(t.work[j].0))
  }

  /** `y` is among the arcs `x` has looked at: all of them once `x` has no frame any more. */
  ghost predicate Looked(succ: Successors, t: State, x: string, y: string)
    requires x in succ
  {
    || (!t.Open(x) && y in succ[x])
    || exists i :: 0 <= i < t.Started() && t.work[i].0 == x && t.work[i].1 <= |succ[x]| && y in succ[x][..t.work[i].1]
  }

  /** Whatever a stack node has looked at has an index, but for the node of a new frame. */
  ghost predicate LookedIndexed(succ: Successors, t: State) {
    forall x, y :: x in t.stack && x in succ && Looked(succ, t, x, y) ==>
      y in t.index || (t.Fresh() && y == t.Top())
  }

  /** From every stack node one can get back to an open node no younger than it. */
  ghost predicate BackToOpen(arcs: Arcs, t: State) {
    forall x {:trigger WayBack(arcs, t, x)} :: x in t.stack ==> WayBack(arcs, t, x)
  }

  ghost predicate WayBack(arcs: Arcs, t: State, x: string) {
    exists y :: OpenBelow(arcs, t, x, y)
  }

  ghost predicate OpenBelow(arcs: Arcs, t: State, x: string, y: string) {
    t.Open(y) && t.Idx(y) <= t.Idx(x) && Reach(arcs, x, y)
  }

  /** An open node reaches every stack node that is not older. */
  ghost predicate OpenReaches(arcs: Arcs, t: State) {
    forall y, x :: t.Open(y) && x in t.stack && t.Idx(y) <= t.Idx(x) ==> Reach(arcs, y, x)
  }

  /** A low-link is the index of a stack node its owner reaches, at most its own. */
  ghost predicate LowSound(arcs: Arcs, t: State) {
    forall y {:trigger LowOk(arcs, t, y)} :: t.Open(y) ==> LowOk(arcs, t, y)
  }

  ghost predicate LowOk(arcs: Arcs, t: State, y: string) {
    t.Low(y) <= t.Idx(y) && exists z :: LowWitness(arcs, t, y, z)
  }

  ghost predicate LowWitness(arcs: Arcs, t: State, y: string, z: string) {
    z in t.stack && t.Idx(z) == t.Low(y) && Reach(arcs, y, z)
  }

  /** `x` lies between frame `i` and the next started one. */
  ghost predicate Owns(t: State, i: int, x: string)
    requires 0 <= i < t.Started()
  {
    && t.Idx(t.work[i].0) <= t.Idx(x)
    && (i + 1 < t.Started() ==> t.Idx(x) < t.Idx(t.work[i + 1].0))
  }

  /** The low-link of a frame is at most the index of every stack node looked at from the nodes it owns. */
  ghost predicate LowComplete(succ: Successors, t: State) {
    forall i, x, y | 0 <= i < t.Started() && Owns(t, i, x) && x in t.stack && x in succ
                     && y in t.stack && Looked(succ, t, x, y)
      :: t.Low(t.work[i].0) <= t.Idx(y)
  }

  ghost predicate Inv(succ: Successors, t: State) {
    && Total(succ) && t.index.Keys <= succ.Keys
    && Indexed(t) && StackOrdered(t) && Split(t) && DoneClosed(succ, t)
    && WorkChain(succ, t) && WorkOnStack(t) && LookedIndexed(succ, t)
    && BackToOpen(SuccArcs(succ), t) && OpenReaches(SuccArcs(succ), t)
    && LowSound(SuccArcs(succ), t) && LowComplete(succ, t)
  }

  /** The invariant, folded: the traversal carries it from step to step and only the lemmas about a
      step open it. */
  ghost predicate Kept(succ: Successors, t: State) {
    match t
    case State(_, _, _, _, _, _) => forall key {:trigger Unlock(key)} :: Unlock(key) ==> Inv(succ, t)
  }

  lemma Unfold(succ: Successors, t: State)
    requires Kept(succ, t)
    ensures Inv(succ, t)
  {
    assert Unlock(true);
  }

  lemma Fold(succ: Successors, t: State)
    requires Inv(succ, t)
    ensures Kept(succ, t)
  {}

  // ----- Giving the node of a new frame its index -----

  function Start(t: State): State
    requires t.work != []
  {
    var v := t.Top();
    t.(index := t.index[v := t.counter], lowlink := t.lowlink[v := t.counter],
       counter := t.counter + 1, stack := t.stack + [v])
  }

  lemma StartOpen(t: State)
    requires t.Fresh() && Split(t) && WorkOnStack(t)
    ensures var t' := Start(t);
      && t'.Started() == t.Started() + 1 == |t.work|
      && (forall x :: t'.Open(x) <==> t.Open(x) || x == t.Top())
      && !t.Open(t.Top()) && t.Top() !in t.stack
      && (forall x :: x != t.Top() ==> t'.Idx(x) == t.Idx(x) && t'.Low(x) == t.Low(x))
  {
    var t', v := Start(t), t.Top();
    forall x ensures t'.Open(x) <==> t.Open(x) || x == v {
      if x == v { assert t'.work[|t.work| - 1].0 == x; }
      if t.Open(x) { var i :| 0 <= i < t.Started() && t.work[i].0 == x; assert t'.work[i].0 == x; }
    }
  }

  lemma StartLooked(succ: Successors, t: State, x: string, y: string)
    requires t.Fresh() && Split(t) && WorkOnStack(t) && x in succ && x != t.Top()
    ensures Looked(succ, Start(t), x, y) <==> Looked(succ, t, x, y)
  {
    StartOpen(t);
    var t' := Start(t);
    if Looked(succ, t, x, y) && t.Open(x) {
      var i :| 0 <= i < t.Started() && t.work[i].0 == x && t.work[i].1 <= |succ[x]| && y in succ[x][..t.work[i].1];
      assert t'.work[i].0 == x;
    }
    if Looked(succ, t', x, y) && t'.Open(x) {
      var i :| 0 <= i < t'.Started() && t'.work[i].0 == x && t'.work[i].1 <= |succ[x]| && y in succ[x][..t'.work[i].1];
      assert i < t.Started();
    }
  }

  lemma StartLookedNothing(succ: Successors, t: State, y: string)
    requires t.Fresh() && Split(t) && WorkOnStack(t) && WorkChain(succ, t) && t.Top() in succ
    ensures !Looked(succ, Start(t), t.Top(), y)
  {
    StartOpen(t);
    var t' := Start(t);
    assert forall i :: 0 <= i < t.Started() ==> t.Open(t.work[i].0);
    assert forall i :: 0 <= i < t'.Started() && t'.work[i].0 == t.Top() ==> i == |t.work| - 1;
  }

  lemma ParentReaches(succ: Successors, t: State, y: string)
    requires t.Fresh() && WorkChain(succ, t) && WorkOnStack(t) && OpenReaches(SuccArcs(succ), t) && t.Open(y)
    ensures Reach(SuccArcs(succ), y, t.Top())
  {
    var k := |t.work| - 2;
    var i :| 0 <= i < t.Started() && t.work[i].0 == y;
    assert FrameOk(succ, t, k);
    var parent := t.work[k].0;
    assert (parent, t.Top()) in SuccArcs(succ);
    assert t.Idx(y) <= t.Idx(parent);
    ReachThenArc(SuccArcs(succ), y, parent, t.Top());
  }

  lemma StartReaches(succ: Successors, t: State)
    requires t.Fresh() && Indexed(t) && Split(t) && WorkOnStack(t) && WorkChain(succ, t)
    requires BackToOpen(SuccArcs(succ), t) && OpenReaches(SuccArcs(succ), t) && LowSound(SuccArcs(succ), t)
    ensures BackToOpen(SuccArcs(succ), Start(t)) && OpenReaches(SuccArcs(succ), Start(t)) && LowSound(SuccArcs(succ), Start(t))
  {
    var t', v, arcs := Start(t), t.Top(), SuccArcs(succ);
    StartOpen(t);
    ReachSelf(arcs, v);
    forall x | x in t'.stack ensures WayBack(arcs, t', x) {
      if x == v {
        assert OpenBelow(arcs, t', v, v);
      } else {
        assert WayBack(arcs, t, x);
        var y :| OpenBelow(arcs, t, x, y);
        assert OpenBelow(arcs, t', x, y);
      }
    }
    forall y, x | t'.Open(y) && x in t'.stack && t'.Idx(y) <= t'.Idx(x) ensures Reach(arcs, y, x) {
      if x == v && y != v { ParentReaches(succ, t, y); }
    }
    forall y | t'.Open(y) ensures LowOk(arcs, t', y) {
      if y == v {
        assert LowWitness(arcs, t', v, v);
      } else {
        assert LowOk(arcs, t, y);
        var z :| LowWitness(arcs, t, y, z);
        assert LowWitness(arcs, t', y, z);
      }
    }
  }

  lemma StartLowAt(succ: Successors, t: State, i: int, x: string, y: string)
    requires t.Fresh() && Indexed(t) && Split(t) && WorkOnStack(t) && WorkChain(succ, t)
    requires LowSound(SuccArcs(succ), t) && LowComplete(succ, t) && t.Top() in succ
    requires 0 <= i < Start(t).Started() && Owns(Start(t), i, x) && x in Start(t).stack && x in succ
    requires y in Start(t).stack && Looked(succ, Start(t), x, y)
    ensures Start(t).Low(t.work[i].0) <= Start(t).Idx(y)
  {
    var v := t.Top();
    StartOpen(t);
    StartLookedNothing(succ, t, y);
    StartLooked(succ, t, x, y);
    assert t.Idx(x) < t.counter;
    assert i < t.Started();
    var w := t.work[i].0;
    assert w != v && t.Open(w);
    if y == v {
      assert LowOk(SuccArcs(succ), t, w);
    } else {
      assert Owns(t, i, x);
    }
  }

  lemma StartLowComplete(succ: Successors, t: State)
    requires t.Fresh() && Indexed(t) && Split(t) && WorkOnStack(t) && WorkChain(succ, t)
    requires LowSound(SuccArcs(succ), t) && LowComplete(succ, t) && t.Top() in succ
    ensures LowComplete(succ, Start(t))
  {
    var t' := Start(t);
    forall i, x, y | 0 <= i < t'.Started() && Owns(t', i, x) && x in t'.stack && x in succ
                     && y in t'.stack && Looked(succ, t', x, y)
      ensures t'.Low(t'.work[i].0) <= t'.Idx(y)
    {
      StartLowAt(succ, t, i, x, y);
    }
  }

  lemma StartLookedIndexed(succ: Successors, t: State)
    requires t.Fresh() && Split(t) && WorkOnStack(t) && WorkChain(succ, t) && LookedIndexed(succ, t)
    ensures LookedIndexed(succ, Start(t))
  {
    var t', v := Start(t), t.Top();
    StartOpen(t);
    forall x, y | x in t'.stack && x in succ && Looked(succ, t', x, y) ensures y in t'.index {
      if x == v { StartLookedNothing(succ, t, y); } else { StartLooked(succ, t, x, y); }
    }
  }

  lemma StartStack(t: State)
    requires t.Fresh() && Indexed(t) && StackOrdered(t) && Split(t)
    ensures Indexed(Start(t)) && StackOrdered(Start(t)) && Split(Start(t))
  {
    var t' := Start(t);
    forall i, j | 0 <= i < j < |t'.stack| ensures t'.Idx(t'.stack[i]) < t'.Idx(t'.stack[j]) {
      assert t.stack[i] in t.stack;
      assert j < |t.stack| ==> t.stack[j] in t.stack;
    }
  }

  lemma StartWork(succ: Successors, t: State)
    requires t.Fresh() && Indexed(t) && Split(t) && WorkChain(succ, t) && WorkOnStack(t)
    ensures !Start(t).Fresh() && WorkChain(succ, Start(t)) && WorkOnStack(Start(t)) && t.Top() in succ
  {
    var t' := Start(t);
    StartOpen(t);
    assert FrameOk(succ, t, |t.work| - 1);
    forall i | 0 <= i < |t'.work| ensures FrameOk(succ, t', i) { assert FrameOk(succ, t, i); }
    forall i, j | 0 <= i < j < t'.Started() ensures t'.Idx(t'.work[i].0) < t'.Idx(t'.work[j].0) {
      assert t.work[i].0 in t.stack;
      assert j < t.Started() ==> t.work[j].0 in t.stack;
    }
  }

  lemma StartKeepsInv(succ: Successors, t: State)
    requires Inv(succ, t) && t.Fresh()
    ensures Inv(succ, Start(t)) && !Start(t).Fresh()
  {
    StartStack(t);
    StartWork(succ, t);
    StartReaches(succ, t);
    StartLowComplete(succ, t);
    StartLookedIndexed(succ, t);
  }

  // ----- Looking at the next arc of the top frame -----

  /** The top frame moves past the arc to `next`; its low-link becomes `low`; a new frame may be opened. */
  function Advance(t: State, low: nat, pushed: seq<(string, nat)>): State
    requires t.work != []
  {
    var k := |t.work| - 1;
    t.(lowlink := t.lowlink[t.Top() := low], work := t.work[..k] + [(t.Top(), t.work[k].1 + 1)] + pushed)
  }

  ghost predicate CanAdvance(succ: Successors, t: State, next: string, low: nat, pushed: seq<(string, nat)>) {
    && t.work != [] && !t.Fresh()
    && var v := t.Top(); var pos := t.work[|t.work| - 1].1;
    && v in succ && pos < |succ[v]| && succ[v][pos] == next
    && low <= t.Low(v) && (next in t.stack ==> low <= t.Idx(next))
    && (low == t.Low(v) || (next in t.stack && low == t.Idx(next)))
    && (if next in t.index then pushed == [] else pushed == [(next, 0)])
  }

  lemma AdvanceOpen(succ: Successors, t: State, next: string, low: nat, pushed: seq<(string, nat)>)
    requires CanAdvance(succ, t, next, low, pushed)
    ensures var t' := Advance(t, low, pushed);
      && t'.Started() == t.Started() == |t.work|
      && (forall i :: 0 <= i < |t.work| ==> t'.work[i].0 == t.work[i].0)
      && (forall i :: 0 <= i < |t.work| - 1 ==> t'.work[i] == t.work[i])
      && (forall x :: t'.Open(x) <==> t.Open(x))
      && (t'.Fresh() <==> next !in t.index)
      && (t'.Fresh() ==> t'.Top() == next)
      && (forall x :: t'.Idx(x) == t.Idx(x))
      && (forall x :: x != t.Top() ==> t'.Low(x) == t.Low(x))
      && t'.Low(t.Top()) == low
  {
    var t' := Advance(t, low, pushed);
    forall x ensures t'.Open(x) <==> t.Open(x) {
      if t.Open(x) { var i :| 0 <= i < t.Started() && t.work[i].0 == x; assert t'.work[i].0 == x; }
      if t'.Open(x) { var i :| 0 <= i < t'.Started() && t'.work[i].0 == x; assert t.work[i].0 == x; }
    }
  }

  lemma AdvanceLooked(succ: Successors, t: State, next: string, low: nat, pushed: seq<(string, nat)>, x: string, y: string)
    requires CanAdvance(succ, t, next, low, pushed) && x in succ
    ensures Looked(succ, Advance(t, low, pushed), x, y) ==> Looked(succ, t, x, y) || (x == t.Top() && y == next)
  {
    var t', k := Advance(t, low, pushed), |t.work| - 1;
    AdvanceOpen(succ, t, next, low, pushed);
    if Looked(succ, t', x, y) && t'.Open(x) {
      var i :| 0 <= i < t'.Started() && t'.work[i].0 == x && t'.work[i].1 <= |succ[x]| && y in succ[x][..t'.work[i].1];
      assert t.work[i].0 == x;
      if i == k {
        var p := t.work[k].1;
        assert succ[x][..p + 1] == succ[x][..p] + [next];
      }
    }
  }

  /** Only the top frame owns its own node. */
  lemma TopOwner(t: State, i: int)
    requires WorkOnStack(t) && !t.Fresh() && 0 <= i < |t.work|
    ensures i < |t.work| - 1 ==> !Owns(t, i, t.Top())
  {
    var k := |t.work| - 1;
    assert forall j :: 0 <= j < k ==> t.Idx(t.work[j].0) < t.Idx(t.work[k].0);
  }

  lemma AdvanceLow(succ: Successors, t: State, next: string, low: nat, pushed: seq<(string, nat)>)
    requires CanAdvance(succ, t, next, low, pushed) && WorkOnStack(t)
    requires LowSound(SuccArcs(succ), t) && LowComplete(succ, t)
    ensures LowSound(SuccArcs(succ), Advance(t, low, pushed)) && LowComplete(succ, Advance(t, low, pushed))
  {
    var t', v, arcs := Advance(t, low, pushed), t.Top(), SuccArcs(succ);
    AdvanceOpen(succ, t, next, low, pushed);
    forall y | t'.Open(y) ensures LowOk(arcs, t', y) {
      assert LowOk(arcs, t, y);
      var z :| LowWitness(arcs, t, y, z);
      if y == v && low != t.Low(v) {
        ReachArc(arcs, v, next);
        assert LowWitness(arcs, t', v, next);
      } else {
        assert LowWitness(arcs, t', y, z);
      }
    }
    forall i, x, y | 0 <= i < t'.Started() && Owns(t', i, x) && x in t'.stack && x in succ
                     && y in t'.stack && Looked(succ, t', x, y)
      ensures t'.Low(t'.work[i].0) <= t'.Idx(y)
    {
      AdvanceLooked(succ, t, next, low, pushed, x, y);
      assert Owns(t, i, x);
      var w := t.work[i].0;
      if Looked(succ, t, x, y) {
        assert t.Low(w) <= t.Idx(y);
      } else {
        TopOwner(t, i);
        assert w == v;
      }
    }
  }

  lemma AdvanceWork(succ: Successors, t: State, next: string, low: nat, pushed: seq<(string, nat)>)
    requires CanAdvance(succ, t, next, low, pushed) && Total(succ) && WorkChain(succ, t) && WorkOnStack(t)
    ensures WorkChain(succ, Advance(t, low, pushed)) && WorkOnStack(Advance(t, low, pushed))
  {
    var t', k := Advance(t, low, pushed), |t.work| - 1;
    AdvanceOpen(succ, t, next, low, pushed);
    assert next in succ;
    forall i | 0 <= i < |t'.work| ensures FrameOk(succ, t', i) {
      if i < k {
        assert FrameOk(succ, t, i);
        assert t'.work[i] == t.work[i] && t'.work[i + 1].0 == t.work[i + 1].0;
      } else if i == k {
        assert t'.work[k] == (t.Top(), t.work[k].1 + 1);
      }
    }
    forall i, j | 0 <= i < j < t'.Started() ensures t'.Idx(t'.work[i].0) < t'.Idx(t'.work[j].0) {
      assert t.Idx(t.work[i].0) < t.Idx(t.work[j].0);
    }
  }

  lemma AdvanceRest(succ: Successors, t: State, next: string, low: nat, pushed: seq<(string, nat)>)
    requires CanAdvance(succ, t, next, low, pushed)
    requires Indexed(t) && StackOrdered(t) && Split(t) && LookedIndexed(succ, t)
    ensures var t' := Advance(t, low, pushed); Indexed(t') && StackOrdered(t') && Split(t') && LookedIndexed(succ, t')
  {
    var t' := Advance(t, low, pushed);
    AdvanceOpen(succ, t, next, low, pushed);
    assert t.Top() in t.index;
    forall x, y | x in t'.stack && x in succ && Looked(succ, t', x, y)
      ensures y in t'.index || (t'.Fresh() && y == t'.Top())
    {
      AdvanceLooked(succ, t, next, low, pushed, x, y);
    }
  }

  lemma AdvanceKeepsInv(succ: Successors, t: State, next: string, low: nat, pushed: seq<(string, nat)>)
    requires Inv(succ, t) && CanAdvance(succ, t, next, low, pushed)
    ensures Inv(succ, Advance(t, low, pushed))
  {
    AdvanceWork(succ, t, next, low, pushed);
    AdvanceRest(succ, t, next, low, pushed);
    AdvanceLow(succ, t, next, low, pushed);
    AdvanceReaches(SuccArcs(succ), succ, t, next, low, pushed);
  }

  lemma AdvanceReaches(arcs: Arcs, succ: Successors, t: State, next: string, low: nat, pushed: seq<(string, nat)>)
    requires CanAdvance(succ, t, next, low, pushed) && BackToOpen(arcs, t) && OpenReaches(arcs, t)
    ensures BackToOpen(arcs, Advance(t, low, pushed)) && OpenReaches(arcs, Advance(t, low, pushed))
  {
    var t' := Advance(t, low, pushed);
    AdvanceOpen(succ, t, next, low, pushed);
    forall x | x in t'.stack ensures WayBack(arcs, t', x) {
      assert WayBack(arcs, t, x);
      var y :| OpenBelow(arcs, t, x, y);
      assert OpenBelow(arcs, t', x, y);
    }
  }

  // ----- Closing the top frame -----

  /** The parent's low-link after the top frame is closed. */
  function Merged(t: State): map<string, nat>
    requires |t.work| >= 2
  {
    var parent, v := t.work[|t.work| - 2].0, t.Top();
    if parent in t.lowlink && v in t.lowlink && t.lowlink[v] < t.lowlink[parent]
    then t.lowlink[parent := t.lowlink[v]] else t.lowlink
  }

  /** Close a frame whose node is not the first of its component. */
  function CloseInner(t: State): State
    requires |t.work| >= 2
  {
    t.(lowlink := Merged(t), work := t.work[..|t.work| - 1])
  }

  /** Close the frame of the first node of a component, and take the component off the stack. */
  function CloseRoot(t: State, m: nat): State
    requires t.work != [] && m <= |t.stack|
  {
    t.(work := t.work[..|t.work| - 1], stack := t.stack[..m], done := t.done + (set x | x in t.stack[m..]))
  }

  /** The top frame has looked at every arc of its node. */
  ghost predicate Exhausted(succ: Successors, t: State) {
    && t.work != [] && !t.Fresh() && t.Top() in succ
    && t.work[|t.work| - 1].1 == |succ[t.Top()]|
  }

  lemma CloseOpen(succ: Successors, t: State, t': State)
    requires Exhausted(succ, t) && WorkOnStack(t)
    requires t'.work == t.work[..|t.work| - 1] && t'.index == t.index
    requires Split(t)
    ensures !t'.Fresh() && t'.Started() == t.Started() - 1 == |t'.work|
    ensures forall x :: t'.Open(x) <==> t.Open(x) && x != t.Top()
    ensures forall x :: t'.Idx(x) == t.Idx(x)
    ensures forall i :: 0 <= i < |t'.work| ==> t'.work[i] == t.work[i]
  {
    if t'.work != [] {
      assert t'.Top() == t.work[|t'.work| - 1].0;
      assert t'.Top() in t.stack;
    }
    forall x ensures t'.Open(x) <==> t.Open(x) && x != t.Top() {
      if t.Open(x) && x != t.Top() {
        var i :| 0 <= i < t.Started() && t.work[i].0 == x;
        assert t'.work[i].0 == x;
      }
      if t'.Open(x) {
        var i :| 0 <= i < t'.Started() && t'.work[i].0 == x;
        assert t.work[i].0 == x && t.Idx(t.work[i].0) < t.Idx(t.work[|t.work| - 1].0);
      }
    }
  }

  lemma CloseLooked(succ: Successors, t: State, t': State, x: string, y: string)
    requires Exhausted(succ, t) && WorkOnStack(t) && Split(t) && x in succ
    requires t'.work == t.work[..|t.work| - 1] && t'.index == t.index
    ensures Looked(succ, t', x, y) <==> Looked(succ, t, x, y)
  {
    CloseOpen(succ, t, t');
    var k := |t.work| - 1;
    if x == t.Top() {
      assert t.work[k].0 == x && succ[x][..t.work[k].1] == succ[x];
      assert t.Open(x);
    } else if t.Open(x) {
      if Looked(succ, t, x, y) {
        var i :| 0 <= i < t.Started() && t.work[i].0 == x && t.work[i].1 <= |succ[x]| && y in succ[x][..t.work[i].1];
        assert t'.work[i].0 == x;
      }
      if Looked(succ, t', x, y) {
        var i :| 0 <= i < t'.Started() && t'.work[i].0 == x && t'.work[i].1 <= |succ[x]| && y in succ[x][..t'.work[i].1];
        assert t.work[i].0 == x;
      }
    }
  }

  lemma LowLeadsOut(arcs: Arcs, t: State, x: string) returns (y: string)
    requires WorkOnStack(t) && BackToOpen(arcs, t) && LowSound(arcs, t)
    requires t.Open(x) && t.Low(x) < t.Idx(x)
    ensures t.Open(y) && t.Idx(y) < t.Idx(x) && Reach(arcs, x, y)
  {
    assert LowOk(arcs, t, x);
    var z :| LowWitness(arcs, t, x, z);
    assert WayBack(arcs, t, z);
    y :| OpenBelow(arcs, t, z, y);
    ReachTransitive(arcs, x, z, y);
  }

  /** A low-link below its owner's index means there is an older open node, which the owner reaches. */
  lemma InnerHasParent(arcs: Arcs, succ: Successors, t: State) returns (out: string)
    requires Exhausted(succ, t) && WorkOnStack(t) && BackToOpen(arcs, t) && LowSound(arcs, t)
    requires t.Low(t.Top()) < t.Idx(t.Top())
    ensures |t.work| >= 2 && t.Open(t.Top())
    ensures t.Open(out) && t.Idx(out) < t.Idx(t.Top()) && Reach(arcs, t.Top(), out)
  {
    var k := |t.work| - 1;
    assert t.work[k].0 == t.Top() && t.Open(t.Top());
    out := LowLeadsOut(arcs, t, t.Top());
    var i :| 0 <= i < t.Started() && t.work[i].0 == out;
    assert i != k;
  }

  lemma CloseInnerBack(arcs: Arcs, succ: Successors, t: State)
    requires Exhausted(succ, t) && WorkOnStack(t) && Split(t) && BackToOpen(arcs, t) && LowSound(arcs, t)
    requires OpenReaches(arcs, t)
    requires |t.work| >= 2 && t.Low(t.Top()) < t.Idx(t.Top())
    ensures BackToOpen(arcs, CloseInner(t)) && OpenReaches(arcs, CloseInner(t))
  {
    var v, t' := t.Top(), CloseInner(t);
    var out := InnerHasParent(arcs, succ, t);
    CloseOpen(succ, t, t');
    forall x | x in t'.stack ensures WayBack(arcs, t', x) {
      assert WayBack(arcs, t, x);
      var y :| OpenBelow(arcs, t, x, y);
      if y == v {
        ReachTransitive(arcs, x, v, out);
        assert OpenBelow(arcs, t', x, out);
      } else {
        assert OpenBelow(arcs, t', x, y);
      }
    }
  }

  lemma CloseInnerLowSound(arcs: Arcs, succ: Successors, t: State)
    requires Exhausted(succ, t) && WorkOnStack(t) && Split(t) && Indexed(t)
    requires OpenReaches(arcs, t) && LowSound(arcs, t) && |t.work| >= 2
    ensures LowSound(arcs, CloseInner(t))
  {
    var v, k := t.Top(), |t.work| - 1;
    var t', parent := CloseInner(t), t.work[k - 1].0;
    CloseOpen(succ, t, t');
    assert t.work[k].0 == v && t.Open(v) && t.Open(parent) && t.Idx(parent) < t.Idx(v);
    assert Reach(arcs, parent, v);
    forall y | t'.Open(y) ensures LowOk(arcs, t', y) {
      assert LowOk(arcs, t, y);
      if t'.Low(y) == t.Low(y) {
        var z :| LowWitness(arcs, t, y, z);
        assert LowWitness(arcs, t', y, z);
      } else {
        assert LowOk(arcs, t, v);
        var w :| LowWitness(arcs, t, v, w);
        ReachTransitive(arcs, parent, v, w);
        assert LowWitness(arcs, t', parent, w);
      }
    }
  }

  lemma CloseOwns(succ: Successors, t: State, t': State, i: int, x: string)
    requires Exhausted(succ, t) && WorkOnStack(t) && Split(t)
    requires t'.work == t.work[..|t.work| - 1] && t'.index == t.index
    requires 0 <= i < t'.Started() && Owns(t', i, x)
    ensures i < |t.work| - 1 == t.Started() - 1
    ensures t.Idx(x) < t.Idx(t.Top()) ==> Owns(t, i, x)
    ensures t.Idx(x) >= t.Idx(t.Top()) ==> i == |t.work| - 2 && Owns(t, |t.work| - 1, x)
  {
    CloseOpen(succ, t, t');
    assert t.work[|t.work| - 1].0 == t.Top();
    if i < |t.work| - 2 {
      assert t.Idx(t.work[i + 1].0) < t.Idx(t.work[|t.work| - 1].0);
    }
  }

  lemma CloseInnerLowComplete(succ: Successors, t: State)
    requires Exhausted(succ, t) && WorkOnStack(t) && Split(t) && Indexed(t) && |t.work| >= 2 && LowComplete(succ, t)
    ensures LowComplete(succ, CloseInner(t))
  {
    var k, t' := |t.work| - 1, CloseInner(t);
    CloseOpen(succ, t, t');
    forall i, x, y | 0 <= i < t'.Started() && Owns(t', i, x) && x in t'.stack && x in succ
                     && y in t'.stack && Looked(succ, t', x, y)
      ensures t'.Low(t'.work[i].0) <= t'.Idx(y)
    {
      CloseLooked(succ, t, t', x, y);
      CloseOwns(succ, t, t', i, x);
      var j := if t.Idx(x) < t.Idx(t.Top()) then i else k;
      assert t.Low(t.work[j].0) <= t.Idx(y);
      MergedLow(t, i);
    }
  }

  /** Merging lowers no low-link but the parent's, and that at most to the closed node's. */
  lemma MergedLow(t: State, i: int)
    requires |t.work| >= 2 && !t.Fresh() && WorkOnStack(t) && Indexed(t) && Split(t)
    requires 0 <= i < |t.work| - 1
    ensures CloseInner(t).Low(t.work[i].0) <= t.Low(t.work[i].0)
    ensures i == |t.work| - 2 ==> CloseInner(t).Low(t.work[i].0) <= t.Low(t.work[|t.work| - 1].0)
  {
    assert t.work[i].0 in t.stack && t.work[|t.work| - 1].0 in t.stack;
  }

  lemma CloseShape(succ: Successors, t: State, t': State)
    requires Exhausted(succ, t) && WorkOnStack(t) && Split(t) && WorkChain(succ, t) && LookedIndexed(succ, t)
    requires t'.work == t.work[..|t.work| - 1] && t'.index == t.index
    requires forall x :: x in t'.stack ==> x in t.stack
    ensures WorkChain(succ, t') && LookedIndexed(succ, t')
  {
    CloseOpen(succ, t, t');
    forall i | 0 <= i < |t'.work| ensures FrameOk(succ, t', i) { assert FrameOk(succ, t, i); }
    forall x, y | x in t'.stack && x in succ && Looked(succ, t', x, y) ensures y in t'.index {
      CloseLooked(succ, t, t', x, y);
    }
  }

  lemma CloseInnerKeepsInv(succ: Successors, t: State)
    requires Inv(succ, t) && Exhausted(succ, t) && t.Low(t.Top()) < t.Idx(t.Top())
    ensures |t.work| >= 2 && Inv(succ, CloseInner(t)) && !CloseInner(t).Fresh()
  {
    var _ := InnerHasParent(SuccArcs(succ), succ, t);
    CloseInnerBack(SuccArcs(succ), succ, t);
    CloseInnerLowSound(SuccArcs(succ), succ, t);
    CloseInnerLowComplete(succ, t);
    CloseShape(succ, t, CloseInner(t));
    CloseInnerShape(succ, t);
  }

  lemma CloseInnerShape(succ: Successors, t: State)
    requires Exhausted(succ, t) && |t.work| >= 2 && Indexed(t) && StackOrdered(t) && Split(t) && WorkOnStack(t)
    ensures var t' := CloseInner(t); !t'.Fresh() && Indexed(t') && StackOrdered(t') && Split(t') && WorkOnStack(t')
  {
    CloseOpen(succ, t, CloseInner(t));
  }

  // ----- Closing a component -----

  /** A low-link that did not move marks the first node of a component; `m` is its place on the stack. */
  ghost predicate AtRoot(succ: Successors, t: State, m: nat) {
    && Exhausted(succ, t) && t.Low(t.Top()) == t.Idx(t.Top())
    && m < |t.stack| && t.stack[m] == t.Top()
  }

  lemma AboveRoot(t: State, m: nat, x: string)
    requires StackOrdered(t) && m < |t.stack| && x in t.stack
    ensures x in t.stack[m..] <==> t.Idx(t.stack[m]) <= t.Idx(x)
    ensures x in t.stack[..m] <==> t.Idx(x) < t.Idx(t.stack[m])
  {
    var j :| 0 <= j < |t.stack| && t.stack[j] == x;
    if j >= m { assert t.stack[m..][j - m] == x; } else { assert t.stack[..m][j] == x; }
    if x in t.stack[m..] {
      var i :| 0 <= i < |t.stack[m..]| && t.stack[m..][i] == x;
      assert t.stack[m + i] == x;
    }
    if x in t.stack[..m] {
      var i :| 0 <= i < m && t.stack[..m][i] == x;
      assert t.stack[i] == x;
    }
  }

  lemma OpenAtRoot(succ: Successors, t: State, m: nat, x: string)
    requires AtRoot(succ, t, m) && WorkOnStack(t) && t.Open(x)
    ensures t.Idx(x) <= t.Idx(t.Top())
    ensures t.Idx(x) == t.Idx(t.Top()) ==> x == t.Top()
  {
    var i :| 0 <= i < t.Started() && t.work[i].0 == x;
    if i < |t.work| - 1 { assert t.Idx(t.work[i].0) < t.Idx(t.work[|t.work| - 1].0); }
  }

  /** What the component's nodes point to lies in the component or in those closed before. */
  lemma ComponentClosed(succ: Successors, t: State, m: nat)
    requires AtRoot(succ, t, m) && Split(t) && StackOrdered(t) && WorkOnStack(t) && DoneClosed(succ, t)
    requires LookedIndexed(succ, t) && LowComplete(succ, t)
    ensures Closed(SuccArcs(succ), t.done + set x | x in t.stack[m..])
  {
    var seg := set x | x in t.stack[m..];
    var v, k := t.Top(), |t.work| - 1;
    forall e | e in SuccArcs(succ) && e.0 in t.done + seg ensures e.1 in t.done + seg {
      var x, y := e.0, e.1;
      if x in seg {
        AboveRoot(t, m, x);
        if t.Open(x) {
          OpenAtRoot(succ, t, m, x);
          assert t.work[k].0 == x && succ[x][..t.work[k].1] == succ[x];
        }
        assert Looked(succ, t, x, y);
        if y in t.stack {
          assert Owns(t, k, x);
          assert t.Low(t.work[k].0) <= t.Idx(y);
          AboveRoot(t, m, y);
        }
      }
    }
  }

  /** The nodes popped with a component's first node are exactly one strongly connected component. */
  lemma ComponentIsScc(succ: Successors, t: State, m: nat)
    requires Inv(succ, t) && AtRoot(succ, t, m)
    ensures IsScc(SuccArcs(succ), set x | x in t.stack[m..])
  {
    ComponentClosed(succ, t, m);
    DoneIsClosed(succ, t);
    SegmentIsScc(SuccArcs(succ), succ, t, m);
  }

  lemma DoneIsClosed(succ: Successors, t: State)
    requires DoneClosed(succ, t)
    ensures Closed(SuccArcs(succ), t.done)
  {}

  lemma SegmentIsScc(arcs: Arcs, succ: Successors, t: State, m: nat)
    requires AtRoot(succ, t, m) && Split(t) && StackOrdered(t) && WorkOnStack(t)
    requires BackToOpen(arcs, t) && OpenReaches(arcs, t)
    requires Closed(arcs, t.done + set x | x in t.stack[m..]) && Closed(arcs, t.done)
    ensures IsScc(arcs, set x | x in t.stack[m..])
  {
    var seg := set x | x in t.stack[m..];
    var v := t.Top();
    assert t.stack[m..][0] == v;
    forall x | x in seg ensures Mutual(arcs, x, v) {
      AboveRoot(t, m, x);
      assert t.work[|t.work| - 1].0 == v && t.Open(v);
      assert WayBack(arcs, t, x);
      var y :| OpenBelow(arcs, t, x, y);
      ReachStaysInClosed(arcs, t.done + seg, x, y);
      var i :| 0 <= i < t.Started() && t.work[i].0 == y;
      assert y in t.stack;
      assert y in t.stack[m..];
      AboveRoot(t, m, y);
      OpenAtRoot(succ, t, m, y);
    }
    forall a, b | a in seg ensures b in seg <==> Mutual(arcs, a, b) {
      if b in seg {
        ReachTransitive(arcs, a, v, b);
        ReachTransitive(arcs, b, v, a);
      }
      if Mutual(arcs, a, b) {
        ReachStaysInClosed(arcs, t.done + seg, a, b);
        if b in t.done {
          ReachStaysInClosed(arcs, t.done, b, a);
        }
      }
    }
  }

  lemma CloseRootBack(arcs: Arcs, succ: Successors, t: State, m: nat)
    requires AtRoot(succ, t, m) && StackOrdered(t) && WorkOnStack(t) && Split(t)
    requires BackToOpen(arcs, t) && OpenReaches(arcs, t)
    ensures BackToOpen(arcs, CloseRoot(t, m)) && OpenReaches(arcs, CloseRoot(t, m))
  {
    var t' := CloseRoot(t, m);
    CloseOpen(succ, t, t');
    forall x | x in t'.stack ensures WayBack(arcs, t', x) {
      AboveRoot(t, m, x);
      assert WayBack(arcs, t, x);
      var y :| OpenBelow(arcs, t, x, y);
      assert OpenBelow(arcs, t', x, y);
    }
  }

  lemma CloseRootLowSound(arcs: Arcs, succ: Successors, t: State, m: nat)
    requires AtRoot(succ, t, m) && StackOrdered(t) && WorkOnStack(t) && Split(t) && LowSound(arcs, t)
    ensures LowSound(arcs, CloseRoot(t, m))
  {
    var t' := CloseRoot(t, m);
    CloseOpen(succ, t, t');
    forall y | t'.Open(y) ensures LowOk(arcs, t', y) {
      assert LowOk(arcs, t, y);
      var z :| LowWitness(arcs, t, y, z);
      OpenAtRoot(succ, t, m, y);
      AboveRoot(t, m, z);
      assert LowWitness(arcs, t', y, z);
    }
  }

  lemma CloseRootStack(t: State, m: nat)
    requires t.work != [] && m < |t.stack| && Indexed(t) && StackOrdered(t) && Split(t)
    ensures var t' := CloseRoot(t, m); Indexed(t') && StackOrdered(t') && Split(t')
  {
    var t' := CloseRoot(t, m);
    assert t.stack == t.stack[..m] + t.stack[m..];
    forall x ensures x in t'.stack ==> x !in t.stack[m..] {
      if x in t.stack { AboveRoot(t, m, x); }
    }
    forall i, j | 0 <= i < j < |t'.stack| ensures t'.Idx(t'.stack[i]) < t'.Idx(t'.stack[j]) {
      assert t.Idx(t.stack[i]) < t.Idx(t.stack[j]);
    }
  }

  lemma CloseRootDone(succ: Successors, t: State, m: nat)
    requires t.work != [] && m <= |t.stack| && Closed(SuccArcs(succ), t.done + set x | x in t.stack[m..])
    ensures DoneClosed(succ, CloseRoot(t, m))
  {
    var t' := CloseRoot(t, m);
    forall a, b | a in t'.done && a in succ && b in succ[a] ensures b in t'.done {
      assert (a, b) in SuccArcs(succ);
    }
  }

  lemma CloseRootWork(succ: Successors, t: State, m: nat)
    requires AtRoot(succ, t, m) && StackOrdered(t) && Split(t) && WorkOnStack(t)
    ensures !CloseRoot(t, m).Fresh() && WorkOnStack(CloseRoot(t, m))
  {
    var t' := CloseRoot(t, m);
    CloseOpen(succ, t, t');
    forall i | 0 <= i < t'.Started() ensures t'.work[i].0 in t'.stack {
      assert t.work[i].0 in t.stack && t.Idx(t.work[i].0) < t.Idx(t.work[|t.work| - 1].0);
      AboveRoot(t, m, t.work[i].0);
    }
    forall i, j | 0 <= i < j < t'.Started() ensures t'.Idx(t'.work[i].0) < t'.Idx(t'.work[j].0) {
      assert t.Idx(t.work[i].0) < t.Idx(t.work[j].0);
    }
  }

  /** Whatever a frame that stays owns and has looked at, it owned and had looked at before. */
  lemma CloseRootPulls(succ: Successors, t: State, t': State, m: nat, i: int, x: string, y: string)
    requires AtRoot(succ, t, m) && StackOrdered(t) && WorkOnStack(t) && Split(t)
    requires t' == CloseRoot(t, m)
    requires 0 <= i < t'.Started() && Owns(t', i, x) && x in t'.stack && x in succ
    requires y in t'.stack && Looked(succ, t', x, y)
    ensures 0 <= i < t.Started() && Owns(t, i, x) && t'.work[i] == t.work[i]
    ensures x in t.stack && y in t.stack && Looked(succ, t, x, y)
  {
    CloseRootOwns(succ, t, t', m, i, x);
    StillOnStack(t, m, y);
    CloseLooked(succ, t, t', x, y);
  }

  lemma StillOnStack(t: State, m: nat, y: string)
    requires m <= |t.stack| && y in t.stack[..m]
    ensures y in t.stack
  {}

  lemma LowAt(succ: Successors, t: State, i: int, x: string, y: string)
    requires LowComplete(succ, t) && 0 <= i < t.Started() && Owns(t, i, x)
    requires x in t.stack && x in succ && y in t.stack && Looked(succ, t, x, y)
    ensures t.Low(t.work[i].0) <= t.Idx(y)
  {}

  lemma CloseRootOwns(succ: Successors, t: State, t': State, m: nat, i: int, x: string)
    requires AtRoot(succ, t, m) && StackOrdered(t) && WorkOnStack(t) && Split(t)
    requires t' == CloseRoot(t, m)
    requires 0 <= i < t'.Started() && Owns(t', i, x) && x in t'.stack
    ensures 0 <= i < |t'.work| < |t.work| && i < t.Started() && t'.work[i] == t.work[i] && Owns(t, i, x) && x in t.stack
  {
    CloseOpen(succ, t, t');
    CloseOwns(succ, t, t', i, x);
    AboveRoot(t, m, x);
  }

  lemma CloseRootLowComplete(succ: Successors, t: State, m: nat)
    requires AtRoot(succ, t, m) && StackOrdered(t) && WorkOnStack(t) && Split(t) && LowComplete(succ, t)
    ensures LowComplete(succ, CloseRoot(t, m))
  {
    var t' := CloseRoot(t, m);
    forall i, x, y | 0 <= i < t'.Started() && Owns(t', i, x) && x in t'.stack && x in succ
                     && y in t'.stack && Looked(succ, t', x, y)
      ensures t'.Low(t'.work[i].0) <= t'.Idx(y)
    {
      CloseRootPulls(succ, t, t', m, i, x, y);
      LowAt(succ, t, i, x, y);
    }
  }

  lemma CloseRootKeepsInv(succ: Successors, t: State, m: nat)
    requires Inv(succ, t) && AtRoot(succ, t, m)
    ensures Inv(succ, CloseRoot(t, m)) && !CloseRoot(t, m).Fresh()
  {
    ComponentClosed(succ, t, m);
    CloseRootStack(t, m);
    CloseRootDone(succ, t, m);
    CloseRootWork(succ, t, m);
    CloseRootBack(SuccArcs(succ), succ, t, m);
    CloseRootLowSound(SuccArcs(succ), succ, t, m);
    CloseRootLowComplete(succ, t, m);
    CloseShape(succ, t, CloseRoot(t, m));
  }

  /** With no frame left the stack is empty: everything indexed is in a closed component. */
  lemma EmptyWorkEmptyStack(succ: Successors, t: State)
    requires Inv(succ, t) && t.work == []
    ensures t.stack == [] && t.done == t.index.Keys
  {
    assert t.stack == [] || t.stack[0] in t.stack;
    forall x ensures x !in t.stack {
      assert !WayBack(SuccArcs(succ), t, x);
    }
  }

  /** A root frame may be opened whenever no frame is left. */
  lemma OpenKeepsInv(succ: Successors, t: State, root: string)
    requires Inv(succ, t) && t.work == [] && root in succ && root !in t.index
    ensures Inv(succ, t.(work := [(root, 0)])) && t.(work := [(root, 0)]).Fresh()
  {
    EmptyWorkEmptyStack(succ, t);
  }
}
