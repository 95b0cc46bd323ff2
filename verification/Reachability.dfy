/** Paths and reachability in a directed graph given by its set of arcs. */
module Reachability {

  type Arcs = set<(string, string)>

  ghost predicate IsPath(arcs: Arcs, p: seq<string>) {
    && p != []
    && forall i :: 0 <= i < |p| - 1 ==> (p[i], p[i + 1]) in arcs
  }

  ghost predicate IsPathFrom(arcs: Arcs, p: seq<string>, a: string, b: string) {
    IsPath(arcs, p) && p[0] == a && p[|p| - 1] == b
  }

  ghost predicate Reach(arcs: Arcs, a: string, b: string) {
    exists p :: IsPathFrom(arcs, p, a, b)
  }

  ghost predicate Mutual(arcs: Arcs, a: string, b: string) {
    Reach(arcs, a, b) && Reach(arcs, b, a)
  }

  ghost predicate Closed(arcs: Arcs, s: set<string>) {
    forall e :: e in arcs && e.0 in s ==> e.1 in s
  }

  lemma ReachSelf(arcs: Arcs, a: string)
    ensures Reach(arcs, a, a)
  {
    assert IsPathFrom(arcs, [a], a, a);
  }

  lemma ReachArc(arcs: Arcs, a: string, b: string)
    requires (a, b) in arcs
    ensures Reach(arcs, a, b)
  {
    assert IsPathFrom(arcs, [a, b], a, b);
  }

  lemma PathConcat(arcs: Arcs, p: seq<string>, q: seq<string>)
    requires IsPath(arcs, p) && IsPath(arcs, q) && p[|p| - 1] == q[0]
    ensures IsPathFrom(arcs, p + q[1..], p[0], q[|q| - 1])
  {
    var r := p + q[1..];
    forall i | 0 <= i < |r| - 1 ensures (r[i], r[i + 1]) in arcs {
      if i >= |p| - 1 {
        var j := i - (|p| - 1);
        assert r[i] == q[j] && r[i + 1] == q[j + 1];
      }
    }
  }

  lemma ReachTransitive(arcs: Arcs, a: string, b: string, c: string)
    requires Reach(arcs, a, b) && Reach(arcs, b, c)
    ensures Reach(arcs, a, c)
  {
    var p :| IsPathFrom(arcs, p, a, b);
    var q :| IsPathFrom(arcs, q, b, c);
    PathConcat(arcs, p, q);
  }

  lemma ReachThenArc(arcs: Arcs, a: string, b: string, c: string)
    requires Reach(arcs, a, b) && (b, c) in arcs
    ensures Reach(arcs, a, c)
  {
    ReachArc(arcs, b, c);
    ReachTransitive(arcs, a, b, c);
  }

  lemma ArcThenReach(arcs: Arcs, a: string, b: string, c: string)
    requires (a, b) in arcs && Reach(arcs, b, c)
    ensures Reach(arcs, a, c)
  {
    ReachArc(arcs, a, b);
    ReachTransitive(arcs, a, b, c);
  }

  lemma PathPrefix(arcs: Arcs, p: seq<string>, k: nat)
    requires IsPath(arcs, p) && k < |p|
    ensures IsPathFrom(arcs, p[..k + 1], p[0], p[k])
    ensures IsPathFrom(arcs, p[k..], p[k], p[|p| - 1])
  {}

  /** A closed set that holds the start of a path holds all of it. */
  lemma {:induction false} PathStaysInClosed(arcs: Arcs, s: set<string>, p: seq<string>)
    requires Closed(arcs, s) && IsPath(arcs, p) && p[0] in s
    ensures forall i :: 0 <= i < |p| ==> p[i] in s
    decreases |p|
  {
    if |p| > 1 {
      assert (p[0], p[1]) in arcs;
      PathStaysInClosed(arcs, s, p[1..]);
      forall i | 0 <= i < |p| ensures p[i] in s {
        if i > 0 { assert p[i] == p[1..][i - 1]; }
      }
    }
  }

  lemma ReachStaysInClosed(arcs: Arcs, s: set<string>, a: string, b: string)
    requires Closed(arcs, s) && a in s && Reach(arcs, a, b)
    ensures b in s
  {
    var p :| IsPathFrom(arcs, p, a, b);
    PathStaysInClosed(arcs, s, p);
  }
}
