/** The reverse postorder of the nodes reachable from the input frontier (`gate-v3-privacy.ts`,
    the first half of computeDominators): an explicit stack of nodes and positions. */
module DepthFirst {
  import opened CodeUnitOrder
  import opened Reachability
  import opened Folding
  import opened GateGraph

  const ROOT := "IN"

  function SuccOf(succ: Successors, v: string): seq<string> {
    if v in succ then succ[v] else []
  }

  type Frames = seq<(string, nat)>

  function Names(stack: Frames): seq<string> {
    seq(|stack|, i requires 0 <= i < |stack| => stack[i].0)
  }

  /** The order starts at the root, holds exactly the reachable nodes, each once, and each of the
      others after one of its predecessors. */
  ghost predicate IsReversePostorder(arcs: Arcs, order: seq<string>) {
    && order != [] && order[0] == ROOT && Distinct(order)
    && (forall v :: v in order <==> Reach(arcs, ROOT, v))
    && (forall i {:trigger HasEarlier(arcs, order, i)} :: 0 < i < |order| ==> HasEarlier(arcs, order, i))
  }

  ghost predicate HasEarlier(arcs: Arcs, order: seq<string>, i: int)
    requires 0 <= i < |order|
  {
    exists j :: 0 <= j < i && (order[j], order[i]) in arcs
  }

  /** Each frame was opened by the last arc its parent looked at; the first is the root's. */
  ghost predicate Linked(succ: Successors, stack: Frames) {
    && (stack != [] ==> stack[0].0 == ROOT)
    && (forall i :: 0 <= i < |stack| ==> stack[i].1 <= |SuccOf(succ, stack[i].0)|)
    && (forall i {:trigger Link(succ, stack, i)} :: 0 <= i < |stack| - 1 ==> Link(succ, stack, i))
  }

  ghost predicate Link(succ: Successors, stack: Frames, i: int)
    requires 0 <= i < |stack| - 1
  {
    stack[i + 1].0 in SuccOf(succ, stack[i].0)
  }

  ghost predicate Partition(post: seq<string>, stack: Frames, seen: set<string>) {
    && Distinct(post + Names(stack))
    && forall v :: v in seen <==> v in post || v in Names(stack)
  }

  /** A finished node other than the root has a predecessor that finishes later. */
  ghost predicate ParentLater(succ: Successors, post: seq<string>, stack: Frames) {
    forall k {:trigger HasLater(succ, post, stack, k)} :: 0 <= k < |post| && post[k] != ROOT ==> HasLater(succ, post, stack, k)
  }

  ghost predicate HasLater(succ: Successors, post: seq<string>, stack: Frames, k: int)
    requires 0 <= k < |post|
  {
    || (exists j :: k < j < |post| && post[k] in SuccOf(succ, post[j]))
    || (exists i :: 0 <= i < |stack| && post[k] in SuccOf(succ, stack[i].0))
  }

  ghost predicate SeenReachable(arcs: Arcs, seen: set<string>) {
    forall v :: v in seen ==> Reach(arcs, ROOT, v)
  }

  /** Every arc looked at leads to a seen node. */
  ghost predicate LookedSeen(succ: Successors, post: seq<string>, stack: Frames, seen: set<string>) {
    && (forall v, w :: v in post && w in SuccOf(succ, v) ==> w in seen)
    && (forall i, p :: 0 <= i < |stack| && 0 <= p < stack[i].1 && p < |SuccOf(succ, stack[i].0)| ==>
          SuccOf(succ, stack[i].0)[p] in seen)
  }

  ghost predicate DfsInv(succ: Successors, post: seq<string>, stack: Frames, seen: set<string>) {
    && Linked(succ, stack) && Partition(post, stack, seen) && ParentLater(succ, post, stack)
    && SeenReachable(SuccArcs(succ), seen) && LookedSeen(succ, post, stack, seen)
    && (stack == [] ==> post != [] && post[|post| - 1] == ROOT)
    && seen <= succ.Keys + {ROOT}
  }

  /** The invariant, folded; only the lemmas about a step open it. */
  ghost predicate Traversed(succ: Successors, post: seq<string>, stack: Frames, seen: set<string>) {
    forall key {:trigger Unlock(key)} :: Unlock(key) ==> DfsInv(succ, post, stack, seen)
  }

  ghost function Left(succ: Successors, stack: Frames): nat {
    if stack == [] then 0
    else
      var (v, pos) := stack[|stack| - 1];
      Left(succ, stack[..|stack| - 1]) + (if pos <= |SuccOf(succ, v)| then |SuccOf(succ, v)| - pos else 0) + 1
  }

  lemma LeftAppend(succ: Successors, stack: Frames, v: string, pos: nat)
    requires pos <= |SuccOf(succ, v)|
    ensures Left(succ, stack + [(v, pos)]) == Left(succ, stack) + |SuccOf(succ, v)| - pos + 1
  {
    assert (stack + [(v, pos)])[..|stack|] == stack;
  }

  lemma NamesAppend(stack: Frames, v: string, pos: nat)
    ensures Names(stack + [(v, pos)]) == Names(stack) + [v]
  {}

  /** Moving the top frame past an arc to a node already seen, or opening a frame for a new one. */
  lemma LookKeeps(succ: Successors, post: seq<string>, stack: Frames, seen: set<string>)
    requires Traversed(succ, post, stack, seen) && Total(succ) && stack != []
    requires stack[|stack| - 1].1 < |SuccOf(succ, stack[|stack| - 1].0)|
    ensures var k := |stack| - 1; var next := SuccOf(succ, stack[k].0)[stack[k].1];
      && next in succ
      && (next in seen ==> Traversed(succ, post, Moved(stack), seen))
      && (next !in seen ==> Traversed(succ, post, Moved(stack) + [(next, 0)], seen + {next}))
  {
    assert Unlock(true);
    var k := |stack| - 1;
    var next := SuccOf(succ, stack[k].0)[stack[k].1];
    var moved := Moved(stack);
    MovedLinks(succ, stack);
    SameNamesParents(succ, post, stack, moved);
    MovedLooked(succ, post, stack, seen, next);
    NextReachable(succ, post, moved, seen, next);
    if next in seen {
      assert seen + {next} == seen;
    } else {
      PushedLinks(succ, moved, next);
      PushedPartition(post, moved, seen, next);
      SameNamesParents(succ, post, moved, moved + [(next, 0)]);
    }
  }

  /** The stack with its top frame one arc further. */
  ghost function Moved(stack: Frames): (moved: Frames)
    requires stack != []
    ensures |moved| == |stack|
    ensures forall i :: 0 <= i < |stack| ==> moved[i].0 == stack[i].0
    ensures Names(moved) == Names(stack)
  {
    var k := |stack| - 1;
    stack[..k] + [(stack[k].0, stack[k].1 + 1)]
  }

  lemma MovedLinks(succ: Successors, stack: Frames)
    requires stack != [] && Linked(succ, stack) && stack[|stack| - 1].1 < |SuccOf(succ, stack[|stack| - 1].0)|
    ensures Linked(succ, Moved(stack))
  {
    var moved := Moved(stack);
    forall i | 0 <= i < |moved| - 1 ensures Link(succ, moved, i) { assert Link(succ, stack, i); }
    forall i | 0 <= i < |moved| ensures moved[i].1 <= |SuccOf(succ, moved[i].0)| {
      assert stack[i].1 <= |SuccOf(succ, stack[i].0)|;
    }
  }

  lemma SameNamesParents(succ: Successors, post: seq<string>, stack: Frames, more: Frames)
    requires |stack| <= |more| && forall i :: 0 <= i < |stack| ==> more[i].0 == stack[i].0
    requires ParentLater(succ, post, stack)
    ensures ParentLater(succ, post, more)
  {
    forall j | 0 <= j < |post| && post[j] != ROOT ensures HasLater(succ, post, more, j) {
      assert HasLater(succ, post, stack, j);
      if i :| 0 <= i < |stack| && post[j] in SuccOf(succ, stack[i].0) {
        assert post[j] in SuccOf(succ, more[i].0);
      }
    }
  }

  lemma MovedLooked(succ: Successors, post: seq<string>, stack: Frames, seen: set<string>, next: string)
    requires stack != [] && LookedSeen(succ, post, stack, seen)
    requires var (v, pos) := stack[|stack| - 1]; pos < |SuccOf(succ, v)| && SuccOf(succ, v)[pos] == next
    ensures LookedSeen(succ, post, Moved(stack), seen + {next})
  {
    var moved, k := Moved(stack), |stack| - 1;
    forall i, p | 0 <= i < |moved| && 0 <= p < moved[i].1 && p < |SuccOf(succ, moved[i].0)|
      ensures SuccOf(succ, moved[i].0)[p] in seen + {next}
    {
      assert p < stack[i].1 || (i == k && p == stack[k].1);
      assert SuccOf(succ, moved[i].0) == SuccOf(succ, stack[i].0);
    }
  }

  lemma PushedLinks(succ: Successors, stack: Frames, next: string)
    requires stack != [] && Linked(succ, stack) && next in SuccOf(succ, stack[|stack| - 1].0)
    ensures Linked(succ, stack + [(next, 0)])
  {
    var more := stack + [(next, 0 as nat)];
    forall i | 0 <= i < |more| - 1 ensures Link(succ, more, i) {
      if i < |stack| - 1 { assert Link(succ, stack, i); }
    }
  }

  lemma PushedPartition(post: seq<string>, stack: Frames, seen: set<string>, next: string)
    requires Partition(post, stack, seen) && next !in seen
    ensures Partition(post, stack + [(next, 0)], seen + {next})
  {
    NamesAppend(stack, next, 0);
    var all := post + Names(stack);
    assert post + (Names(stack) + [next]) == all + [next];
    assert forall x :: x in all <==> x in seen;
  }

  lemma NextReachable(succ: Successors, post: seq<string>, stack: Frames, seen: set<string>, next: string)
    requires stack != [] && Partition(post, stack, seen) && SeenReachable(SuccArcs(succ), seen)
    requires next in SuccOf(succ, stack[|stack| - 1].0)
    ensures SeenReachable(SuccArcs(succ), seen + {next})
  {
    var top := stack[|stack| - 1].0;
    assert Names(stack)[|stack| - 1] == top;
    assert (top, next) in SuccArcs(succ);
    ReachThenArc(SuccArcs(succ), ROOT, top, next);
  }

  /** Finishing the top frame appends its node to the postorder. */
  lemma FinishKeeps(succ: Successors, post: seq<string>, stack: Frames, seen: set<string>)
    requires Traversed(succ, post, stack, seen) && stack != []
    requires stack[|stack| - 1].1 == |SuccOf(succ, stack[|stack| - 1].0)|
    ensures Traversed(succ, post + [stack[|stack| - 1].0], stack[..|stack| - 1], seen)
  {
    assert Unlock(true);
    var k := |stack| - 1;
    var (v, pos) := stack[k];
    var rest, done := stack[..k], post + [v];
    assert stack == rest + [(v, pos)];
    NamesAppend(rest, v, pos);
    FinishPartition(post, rest, v, seen);
    forall i | 0 <= i < |rest| - 1 ensures Link(succ, rest, i) { assert Link(succ, stack, i); }
    FinishParents(succ, post, stack);
    FinishLooked(succ, post, stack, seen);
  }

  lemma FinishPartition(post: seq<string>, rest: Frames, v: string, seen: set<string>)
    requires Distinct(post + (Names(rest) + [v]))
    requires forall x :: x in seen <==> x in post || x in Names(rest) + [v]
    ensures Partition(post + [v], rest, seen)
  {
    var a, b := post + (Names(rest) + [v]), (post + [v]) + Names(rest);
    assert multiset(a) == multiset(b);
    DistinctIsSingle(a);
    SingleIsDistinct(b);
  }

  lemma FinishParents(succ: Successors, post: seq<string>, stack: Frames)
    requires stack != [] && Linked(succ, stack) && ParentLater(succ, post, stack)
    ensures ParentLater(succ, post + [stack[|stack| - 1].0], stack[..|stack| - 1])
  {
    var k := |stack| - 1;
    var v := stack[k].0;
    var rest, done := stack[..k], post + [v];
    forall j | 0 <= j < |done| && done[j] != ROOT ensures HasLater(succ, done, rest, j) {
      if j < |post| {
        assert HasLater(succ, post, stack, j);
        if i :| 0 <= i < |stack| && post[j] in SuccOf(succ, stack[i].0) {
          if i == k { assert done[|post|] == v; } else { assert rest[i] == stack[i]; }
        } else {
          var m :| j < m < |post| && post[j] in SuccOf(succ, post[m]);
          assert done[m] == post[m];
        }
      } else {
        assert Link(succ, stack, k - 1);
        assert rest[k - 1] == stack[k - 1];
      }
    }
  }

  lemma FinishLooked(succ: Successors, post: seq<string>, stack: Frames, seen: set<string>)
    requires stack != [] && LookedSeen(succ, post, stack, seen)
    requires stack[|stack| - 1].1 == |SuccOf(succ, stack[|stack| - 1].0)|
    ensures LookedSeen(succ, post + [stack[|stack| - 1].0], stack[..|stack| - 1], seen)
  {
    var k := |stack| - 1;
    var v := stack[k].0;
    forall u, w | u in post + [v] && w in SuccOf(succ, u) ensures w in seen {
      if u == v {
        var p :| 0 <= p < |SuccOf(succ, v)| && SuccOf(succ, v)[p] == w;
        assert SuccOf(succ, stack[k].0)[p] in seen;
      }
    }
  }

  ghost function Reversed(s: seq<string>): seq<string> {
    seq(|s|, i requires 0 <= i < |s| => s[|s| - 1 - i])
  }

  /** With no frame left, the finished nodes backwards are the reverse postorder. */
  lemma FinishedOrder(succ: Successors, post: seq<string>, seen: set<string>)
    requires Traversed(succ, post, [], seen)
    ensures IsReversePostorder(SuccArcs(succ), Reversed(post))
  {
    assert Unlock(true);
    var order := Reversed(post);
    assert post + Names([]) == post;
    forall v ensures v in order <==> v in post {
      if v in post { var k :| 0 <= k < |post| && post[k] == v; assert order[|post| - 1 - k] == v; }
    }
    ReachedAreSeen(succ, post, seen);
    EarlierInOrder(succ, post);
  }

  lemma EarlierInOrder(succ: Successors, post: seq<string>)
    requires post != [] && Distinct(post) && post[|post| - 1] == ROOT && ParentLater(succ, post, [])
    ensures var order := Reversed(post);
      forall i {:trigger HasEarlier(SuccArcs(succ), order, i)} :: 0 < i < |order| ==> HasEarlier(SuccArcs(succ), order, i)
  {
    var arcs, order := SuccArcs(succ), Reversed(post);
    forall i | 0 < i < |order| ensures HasEarlier(arcs, order, i) {
      var k := |post| - 1 - i;
      assert post[k] != ROOT;
      assert HasLater(succ, post, [], k);
      var j :| k < j < |post| && post[k] in SuccOf(succ, post[j]);
      assert order[|post| - 1 - j] == post[j] && (post[j], post[k]) in arcs;
    }
  }

  lemma ReachedAreSeen(succ: Successors, post: seq<string>, seen: set<string>)
    requires DfsInv(succ, post, [], seen)
    ensures forall v :: v in post <==> Reach(SuccArcs(succ), ROOT, v)
  {
    var arcs := SuccArcs(succ);
    assert Closed(arcs, seen) by {
      forall e | e in arcs && e.0 in seen ensures e.1 in seen {
        assert e.1 in SuccOf(succ, e.0);
      }
    }
    assert ROOT in seen;
    forall v | Reach(arcs, ROOT, v) ensures v in seen { ReachStaysInClosed(arcs, seen, ROOT, v); }
  }

  lemma InitialDfs(succ: Successors)
    ensures Traversed(succ, [], [(ROOT, 0)], {ROOT})
  {
    ReachSelf(SuccArcs(succ), ROOT);
    assert Names([(ROOT, 0)]) == [ROOT];
  }

  lemma FrameFits(succ: Successors, post: seq<string>, stack: Frames, seen: set<string>)
    requires Traversed(succ, post, stack, seen) && stack != []
    ensures stack[|stack| - 1].1 <= |SuccOf(succ, stack[|stack| - 1].0)|
  {
    assert Unlock(true);
  }

  method ReversePostorder(succ: Successors) returns (order: seq<string>)
    requires Total(succ)
    ensures IsReversePostorder(SuccArcs(succ), order)
  {
    var post: seq<string> := [];
    var seen := {ROOT};
    var stack: Frames := [(ROOT, 0)];
    InitialDfs(succ);
    while stack != []
      invariant Traversed(succ, post, stack, seen)
      decreases succ.Keys + {ROOT} - seen, Left(succ, stack)
    {
      FrameFits(succ, post, stack, seen);
      var k := |stack| - 1;
      var (node, position) := stack[k];
      var targets := SuccOf(succ, node);
      assert stack == stack[..k] + [(node, position)];
      LeftAppend(succ, stack[..k], node, position);
      if position < |targets| {
        LookKeeps(succ, post, stack, seen);
        LeftAppend(succ, stack[..k], node, position + 1);
        var next := targets[position];
        assert Moved(stack) == stack[..k] + [(node, position + 1)];
        stack := stack[..k] + [(node, position + 1)];
        if next !in seen {
          seen := seen + {next};
          stack := stack + [(next, 0)];
        }
      } else {
        FinishKeeps(succ, post, stack, seen);
        post := post + [node];
        stack := stack[..k];
      }
    }
    FinishedOrder(succ, post, seen);
    order := Reverse(post);
  }

  method Reverse(s: seq<string>) returns (r: seq<string>)
    ensures r == Reversed(s)
  {
    r := [];
    for i := 0 to |s|
      invariant |r| == i && forall j :: 0 <= j < i ==> r[j] == s[i - 1 - j]
    {
      r := [s[i]] + r;
    }
  }
}
