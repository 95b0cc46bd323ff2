/** The tree of tentative dominators that the fixpoint of `gate-v3-privacy.ts` works on, with nodes
    numbered by their reverse postorder: `par[i]` is the parent of node `i`, or -1 when it has none yet. */
module DominatorTree {

  type Parents = seq<int>

  predicate IsSet(par: Parents, i: int) {
    0 <= i < |par| && par[i] >= 0
  }

  /** Node 0 is the root and any other parent comes earlier in the order; the nodes that have a parent
      are a prefix of the order. */
  ghost predicate Tree(par: Parents) {
    && |par| > 0 && par[0] == 0
    && (forall i :: 0 < i < |par| ==> par[i] < i)
    && (forall i, j :: 0 <= j < i < |par| && par[i] >= 0 ==> par[j] >= 0)
  }

  /** The node and everything above it. */
  ghost function Chain(par: Parents, i: int): (c: set<int>)
    requires Tree(par) && IsSet(par, i)
    ensures i in c && 0 in c && forall e :: e in c ==> 0 <= e <= i
    decreases i
  {
    if i == 0 then {0} else {i} + Chain(par, par[i])
  }

  lemma {:induction false} ChainIsSet(par: Parents, i: int, e: int)
    requires Tree(par) && IsSet(par, i) && e in Chain(par, i)
    ensures IsSet(par, e) && Chain(par, e) <= Chain(par, i)
    decreases i
  {
    if e != i { ChainIsSet(par, par[i], e); }
  }

  /** A chain only looks at its own part of the tree. */
  lemma {:induction false} ChainSame(par: Parents, par': Parents, i: int)
    requires Tree(par) && Tree(par') && IsSet(par, i)
    requires i < |par'| && forall j :: 0 <= j <= i ==> par[j] == par'[j]
    ensures IsSet(par', i) && Chain(par, i) == Chain(par', i)
    decreases i
  {
    if i != 0 { ChainSame(par, par', par[i]); }
  }

  /** The first node of the chain of `i` that is numbered below `n`. */
  ghost function FirstBelow(par: Parents, i: int, n: int): (y: int)
    requires Tree(par) && IsSet(par, i) && n > 0
    ensures 0 <= y < n && y in Chain(par, i)
    decreases i
  {
    if i < n then i else FirstBelow(par, par[i], n)
  }

  lemma {:induction false} FirstBelowIsLargest(par: Parents, i: int, n: int, e: int)
    requires Tree(par) && IsSet(par, i) && n > 0 && e in Chain(par, i) && e < n
    ensures e <= FirstBelow(par, i, n)
    decreases i
  {
    if i >= n { FirstBelowIsLargest(par, par[i], n, e); }
  }

  /** The tree in the middle of a pass: the nodes before `n` have been given their new parents. */
  function Mix(new': Parents, old': Parents, n: int): Parents
    requires 0 <= n <= |new'| == |old'|
  {
    new'[..n] + old'[n..]
  }

  /** Below `n` the chain of a node not yet processed continues along new parents. */
  lemma {:induction false} MixBelow(par: Parents, old': Parents, n: int, i: int, e: int)
    requires Tree(par) && Tree(old') && 0 < n <= |par| == |old'|
    requires Tree(Mix(par, old', n)) && IsSet(old', i) && n <= i && e < n
    ensures IsSet(Mix(par, old', n), i) && IsSet(par, FirstBelow(old', i, n))
    ensures e in Chain(Mix(par, old', n), i) <==> e in Chain(par, FirstBelow(old', i, n))
    decreases i
  {
    var m := Mix(par, old', n);
    var y := old'[i];
    assert m[i] == y;
    if y < n {
      assert IsSet(m, y);
      assert forall j :: 0 <= j <= y ==> m[j] == par[j];
      ChainSame(m, par, y);
    } else {
      MixBelow(par, old', n, y, e);
    }
  }

  // ----- What one pass over the nodes establishes -----

  type Preds = set<(int, int)>

  /** Every node but the root has a predecessor earlier in the order. */
  ghost predicate ForwardPred(preds: Preds, n: int) {
    forall i {:trigger HasForward(preds, i)} :: 0 < i < n ==> HasForward(preds, i)
  }

  ghost predicate HasForward(preds: Preds, i: int) {
    exists w :: 0 <= w < i && (w, i) in preds
  }

  /** The parent of `i` lies on the chain of each of its earlier predecessors. */
  ghost predicate UnderForward(preds: Preds, par: Parents, i: int)
    requires Tree(par)
  {
    IsSet(par, i) && forall w :: 0 <= w < i && (w, i) in preds ==> IsSet(par, w) && Chain(par, par[i]) <= Chain(par, w)
  }

  /** `e` lies on the chain of every predecessor of `i` that had a parent when `i` was processed. */
  ghost predicate Common(preds: Preds, par: Parents, old': Parents, i: int, e: int)
    requires |par| == |old'| && 0 <= i <= |par| && Tree(Mix(par, old', i))
  {
    forall p :: (p, i) in preds && IsSet(Mix(par, old', i), p) ==> e in Chain(Mix(par, old', i), p)
  }

  /** The parent of `i` is the deepest such node. */
  ghost predicate Deepest(preds: Preds, par: Parents, old': Parents, i: int)
    requires Tree(par) && |par| == |old'| && 0 <= i <= |par|
  {
    && Tree(Mix(par, old', i)) && IsSet(par, i)
    && forall e {:trigger Common(preds, par, old', i, e)} :: 0 <= e < i && Common(preds, par, old', i, e) ==> e in Chain(par, par[i])
  }

  /** The chains got no larger: a node that had a parent keeps only nodes it already had above it. */
  ghost predicate Shrunk(par: Parents, old': Parents, i: int)
    requires Tree(par) && Tree(old')
  {
    IsSet(par, i) && (IsSet(old', i) ==> Chain(par, i) <= Chain(old', i))
  }

  /** What holds between two passes: `old'` is the tree before the last pass, `par` the tree after it. */
  ghost predicate Passed(preds: Preds, par: Parents, old': Parents, i: int)
    requires Tree(par) && Tree(old') && |par| == |old'| && 0 <= i <= |par|
  {
    UnderForward(preds, par, i) && Deepest(preds, par, old', i) && Shrunk(par, old', i)
  }

  ghost predicate Boundary(preds: Preds, par: Parents, old': Parents) {
    && Tree(par) && Tree(old') && |par| == |old'| && ForwardPred(preds, |par|)
    && (forall i {:trigger UnderForward(preds, old', i)} :: 0 < i < |par| && IsSet(old', i) ==> UnderForward(preds, old', i))
    && (forall i {:trigger Passed(preds, par, old', i)} :: 0 < i < |par| && IsSet(par, i) ==> Passed(preds, par, old', i))
    && ((forall i :: 0 <= i < |par| ==> IsSet(par, i)) || (forall i :: 0 < i < |par| ==> !IsSet(par, i)))
  }

  /** If `y` was above `i` before a pass, then after it whatever is above `i` at or below `y` is above `y`. */
  lemma {:induction false} Star(preds: Preds, par: Parents, old': Parents, i: int, y: int, e: int)
    requires Boundary(preds, par, old') && IsSet(old', i) && IsSet(par, i)
    requires y in Chain(old', i) && e in Chain(par, i) && e <= y
    ensures IsSet(par, y) && e in Chain(par, y)
    decreases i
  {
    if i != y {
      assert HasForward(preds, i);
      var w :| 0 <= w < i && (w, i) in preds;
      assert UnderForward(preds, old', i);
      assert Passed(preds, par, old', i);
      Star(preds, par, old', w, y, e);
    }
  }

  /** During a pass: `cur` has new parents before `n`, and the parents of `par` from `n` on. */
  ghost predicate InPass(preds: Preds, cur: Parents, par: Parents, n: int) {
    && Tree(cur) && Tree(par) && |cur| == |par| && 0 < n <= |par|
    && (forall j :: n <= j < |par| ==> cur[j] == par[j])
    && (forall j {:trigger Passed(preds, cur, par, j)} :: 0 < j < n ==> Passed(preds, cur, par, j))
  }

  /** `c` is the deepest node common to the chains of the predecessors of `n` that have a parent. */
  ghost predicate Meet(preds: Preds, cur: Parents, n: int, c: int)
    requires Tree(cur)
  {
    && IsSet(cur, c)
    && (forall e, p :: e in Chain(cur, c) && (p, n) in preds && IsSet(cur, p) ==> e in Chain(cur, p))
    && (forall e {:trigger Above(preds, cur, n, e)} :: Above(preds, cur, n, e) ==> e in Chain(cur, c))
  }

  ghost predicate Above(preds: Preds, cur: Parents, n: int, e: int)
    requires Tree(cur)
  {
    forall p :: (p, n) in preds && IsSet(cur, p) ==> e in Chain(cur, p)
  }

  lemma PassSet(preds: Preds, cur: Parents, par: Parents, n: int, p: int)
    requires InPass(preds, cur, par, n) && 0 <= p < n
    ensures IsSet(cur, p) && (IsSet(par, p) ==> Chain(cur, p) <= Chain(par, p))
  {
    if p > 0 { assert Passed(preds, cur, par, p); }
  }

  /** A node met now was already met by each predecessor in the previous pass. */
  lemma StillCommon(preds: Preds, cur: Parents, par: Parents, old': Parents, n: int, c: int, p: int)
    requires Boundary(preds, par, old') && InPass(preds, cur, par, n) && n < |par| && IsSet(par, n)
    requires Tree(Mix(par, old', n)) && (p, n) in preds && IsSet(Mix(par, old', n), p)
    requires 0 <= c < n && (IsSet(cur, p) ==> c in Chain(cur, p))
    ensures c in Chain(Mix(par, old', n), p)
  {
    var before := Mix(par, old', n);
    if p < n {
      PassSet(preds, cur, par, n, p);
      ChainSame(before, par, p);
    } else {
      AllSet(preds, par, old', n, p);
      StillCommonLater(preds, cur, par, old', n, c, p);
    }
  }

  lemma AllSet(preds: Preds, par: Parents, old': Parents, n: int, p: int)
    requires Boundary(preds, par, old') && 0 < n < |par| && IsSet(par, n) && 0 <= p < |par|
    ensures IsSet(par, p)
  {}

  lemma StillCommonLater(preds: Preds, cur: Parents, par: Parents, old': Parents, n: int, c: int, p: int)
    requires Boundary(preds, par, old') && InPass(preds, cur, par, n) && n < |par| && IsSet(par, n)
    requires Tree(Mix(par, old', n)) && n <= p < |par| && IsSet(old', p) && IsSet(par, p)
    requires 0 <= c < n && (IsSet(cur, p) ==> c in Chain(cur, p))
    ensures IsSet(Mix(par, old', n), p) && c in Chain(Mix(par, old', n), p)
  {
    BelowIsShrunk(preds, cur, par, n, c, p);
    BelowWasAbove(preds, par, old', n, c, p);
    MixBelow(par, old', n, p, c);
  }

  lemma BelowIsShrunk(preds: Preds, cur: Parents, par: Parents, n: int, c: int, p: int)
    requires InPass(preds, cur, par, n) && n <= p < |par| && IsSet(par, p)
    requires 0 <= c < n && (IsSet(cur, p) ==> c in Chain(cur, p))
    ensures IsSet(par, FirstBelow(par, p, n)) && c in Chain(par, FirstBelow(par, p, n))
  {
    assert Mix(cur, par, n) == cur;
    MixBelow(cur, par, n, p, c);
    ChainIsSet(par, p, FirstBelow(par, p, n));
    PassSet(preds, cur, par, n, FirstBelow(par, p, n));
  }

  lemma BelowWasAbove(preds: Preds, par: Parents, old': Parents, n: int, c: int, p: int)
    requires Boundary(preds, par, old') && 0 < n <= p < |par| && IsSet(old', p) && IsSet(par, p)
    requires IsSet(par, FirstBelow(par, p, n)) && c in Chain(par, FirstBelow(par, p, n))
    ensures IsSet(par, FirstBelow(old', p, n)) && c in Chain(par, FirstBelow(old', p, n))
  {
    var y, y' := FirstBelow(old', p, n), FirstBelow(par, p, n);
    assert Passed(preds, par, old', p);
    FirstBelowIsLargest(old', p, n, y');
    Star(preds, par, old', p, y, y');
    ChainIsSet(par, y, y');
  }

  /** Parents only move up from pass to pass: this is what makes the loop stop. */
  lemma MovesUp(preds: Preds, cur: Parents, par: Parents, old': Parents, n: int, c: int)
    requires Boundary(preds, par, old') && InPass(preds, cur, par, n) && n < |par| && IsSet(par, n)
    requires Meet(preds, cur, n, c) && c < n
    ensures c in Chain(par, par[n]) && c <= par[n]
  {
    assert Passed(preds, par, old', n);
    assert Deepest(preds, par, old', n);
    var before := Mix(par, old', n);
    assert c in Chain(cur, c);
    forall p | (p, n) in preds && IsSet(before, p) ensures c in Chain(before, p) {
      assert IsSet(cur, p) ==> c in Chain(cur, p);
      StillCommon(preds, cur, par, old', n, c, p);
    }
    assert Common(preds, par, old', n, c);
  }

  lemma MeetIsEarlier(preds: Preds, cur: Parents, par: Parents, n: int, c: int)
    requires InPass(preds, cur, par, n) && n < |par| && ForwardPred(preds, |par|) && Meet(preds, cur, n, c)
    ensures c < n
  {
    assert HasForward(preds, n);
    var w :| 0 <= w < n && (w, n) in preds;
    PassSet(preds, cur, par, n, w);
    assert c in Chain(cur, c);
  }

  lemma UpdateTree(cur: Parents, n: int, c: int)
    requires Tree(cur) && 0 < n < |cur| && 0 <= c < n && forall j :: 0 <= j < n ==> IsSet(cur, j)
    ensures Tree(cur[n := c])
    ensures forall i :: 0 <= i < |cur| && IsSet(cur, i) ==> IsSet(cur[n := c], i)
    ensures forall i :: 0 <= i < n && IsSet(cur, i) ==> Chain(cur[n := c], i) == Chain(cur, i)
    ensures Chain(cur[n := c], n) == {n} + Chain(cur, c)
  {
    var next := cur[n := c];
    forall i, j | 0 <= j < i < |next| && next[i] >= 0 ensures next[j] >= 0 {
      assert j < n ==> IsSet(cur, j);
    }
    forall i | 0 <= i < n && IsSet(cur, i) ensures Chain(next, i) == Chain(cur, i) {
      ChainSame(cur, next, i);
    }
  }

  /** A processed node's record only mentions the part of the tree that is already fixed. */
  lemma PassedStable(preds: Preds, cur: Parents, par: Parents, n: int, c: int, j: int)
    requires Tree(cur) && Tree(par) && |cur| == |par| && 0 < j < n < |cur| && 0 <= c < n
    requires forall k :: 0 <= k < n ==> IsSet(cur, k)
    requires Passed(preds, cur, par, j)
    ensures Tree(cur[n := c]) && Passed(preds, cur[n := c], par, j)
  {
    var next := cur[n := c];
    UpdateTree(cur, n, c);
    assert Mix(next, par, j) == Mix(cur, par, j);
    assert next[j] == cur[j];
    forall e | 0 <= e < j && Common(preds, next, par, j, e) ensures e in Chain(next, next[j]) {
      assert Common(preds, cur, par, j, e);
    }
  }

  lemma NewRecord(preds: Preds, cur: Parents, par: Parents, old': Parents, n: int, c: int)
    requires Boundary(preds, par, old') && InPass(preds, cur, par, n) && n < |par|
    requires Meet(preds, cur, n, c) && c < n
    ensures Tree(cur[n := c]) && Passed(preds, cur[n := c], par, n)
  {
    var next := cur[n := c];
    forall j | 0 <= j < n ensures IsSet(cur, j) { PassSet(preds, cur, par, n, j); }
    UpdateTree(cur, n, c);
    assert Mix(next, par, n) == cur;
    forall w | 0 <= w < n && (w, n) in preds ensures IsSet(next, w) && Chain(next, next[n]) <= Chain(next, w) {
      PassSet(preds, cur, par, n, w);
    }
    forall e | 0 <= e < n && Common(preds, next, par, n, e) ensures e in Chain(next, next[n]) {
      assert Above(preds, cur, n, e);
    }
    if IsSet(par, n) {
      MovesUp(preds, cur, par, old', n, c);
      PassSet(preds, cur, par, n, c);
      ChainIsSet(par, par[n], c);
    }
  }

  /** Giving node `n` its new parent carries the pass one node further. */
  lemma StepPass(preds: Preds, cur: Parents, par: Parents, old': Parents, n: int, c: int)
    requires Boundary(preds, par, old') && InPass(preds, cur, par, n) && n < |par|
    requires Meet(preds, cur, n, c)
    ensures c < n && InPass(preds, cur[n := c], par, n + 1)
    ensures IsSet(par, n) ==> c <= par[n]
  {
    MeetIsEarlier(preds, cur, par, n, c);
    NewRecord(preds, cur, par, old', n, c);
    var next := cur[n := c];
    forall j | 0 <= j < n ensures IsSet(cur, j) { PassSet(preds, cur, par, n, j); }
    forall j | 0 < j < n ensures Passed(preds, next, par, j) {
      assert Passed(preds, cur, par, j);
      PassedStable(preds, cur, par, n, c, j);
    }
    if IsSet(par, n) { MovesUp(preds, cur, par, old', n, c); }
  }

  /** A finished pass is the next boundary. */
  lemma EndPass(preds: Preds, cur: Parents, par: Parents, old': Parents)
    requires Boundary(preds, par, old') && InPass(preds, cur, par, |par|)
    ensures Boundary(preds, cur, par) && forall i :: 0 <= i < |cur| ==> IsSet(cur, i)
  {
    forall i | 0 <= i < |cur| ensures IsSet(cur, i) { PassSet(preds, cur, par, |par|, i); }
    forall i | 0 < i < |par| && IsSet(par, i) ensures UnderForward(preds, par, i) {
      assert Passed(preds, par, old', i);
    }
  }

  // ----- Dominators -----

  type Doms = set<(int, int)>

  /** `(d, i)` in `doms`: whatever dominates a node other than itself dominates all its predecessors,
      and only the root dominates the root. */
  ghost predicate DomsOk(doms: Doms, preds: Preds) {
    && (forall d, i, p :: (d, i) in doms && d != i && (p, i) in preds ==> (d, p) in doms)
    && (forall d :: (d, 0) in doms ==> d == 0)
  }

  /** No parent has lost a dominator of its child. */
  ghost predicate Over(doms: Doms, par: Parents) {
    forall d, i :: (d, i) in doms && d != i && 0 < i && IsSet(par, i) ==> (d, par[i]) in doms
  }

  lemma {:induction false} DomOnChain(doms: Doms, preds: Preds, par: Parents, d: int, i: int)
    requires Tree(par) && DomsOk(doms, preds) && Over(doms, par) && IsSet(par, i) && (d, i) in doms
    ensures d in Chain(par, i)
    decreases i
  {
    if i != 0 && d != i { DomOnChain(doms, preds, par, d, par[i]); }
  }

  lemma {:induction false} DomDown(doms: Doms, par: Parents, d: int, a: int, r: int)
    requires Tree(par) && Over(doms, par) && IsSet(par, a) && (d, a) in doms && r in Chain(par, a) && d <= r
    ensures (d, r) in doms
    decreases a
  {
    if a != r { DomDown(doms, par, d, par[a], r); }
  }

  /** The meet of the predecessors is dominated by everything that strictly dominates the node. */
  lemma OverUpdate(doms: Doms, preds: Preds, cur: Parents, n: int, c: int, w: int)
    requires Tree(cur) && DomsOk(doms, preds) && Over(doms, cur) && 0 < n < |cur|
    requires Meet(preds, cur, n, c) && (w, n) in preds && IsSet(cur, w)
    ensures Over(doms, cur[n := c])
  {
    forall d | (d, n) in doms && d != n ensures (d, c) in doms {
      forall p | (p, n) in preds && IsSet(cur, p) ensures d in Chain(cur, p) {
        DomOnChain(doms, preds, cur, d, p);
      }
      assert Above(preds, cur, n, d);
      assert d in Chain(cur, c) && c in Chain(cur, c);
      DomDown(doms, cur, d, w, c);
    }
  }

  /** The tree has settled: every parent is the meet of all predecessors. */
  ghost predicate Settled(preds: Preds, par: Parents) {
    && Tree(par) && (forall i :: 0 <= i < |par| ==> IsSet(par, i))
    && forall i {:trigger Meet(preds, par, i, par[i])} :: 0 < i < |par| ==> Meet(preds, par, i, par[i])
  }
}
