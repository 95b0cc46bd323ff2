/** Who calls whom among the flows of a program (`flow-dependency-analysis.ts`, analyzeFlowDependencies):
    direct uses, direct users, and how many flows reach each flow by calls. */
module FlowDependencies {
  import opened CodeUnitOrder
  import opened Reachability

  /** A top-level flow and the names it calls, in order. */
  datatype FlowDecl = FlowDecl(name: string, calls: seq<string>)

  datatype Dependencies = Dependencies(uses: seq<string>, usedBy: seq<string>, impact: nat)

  type Bodies = map<string, seq<string>>
  type Links = map<string, set<string>>

  /** One body for each name: a later declaration replaces an earlier one. */
  function BodiesOf(decls: seq<FlowDecl>): Bodies {
    if decls == [] then map[]
    else
      var before, d := BodiesOf(decls[..|decls| - 1]), decls[|decls| - 1];
      if d.name == "" then before else before[d.name := d.calls]
  }

  /** The calls between different flows of the program. */
  ghost function UseArcs(bodies: Bodies): Arcs {
    set a, b | a in bodies && b in bodies[a] && b in bodies && b != a :: (a, b)
  }

  /** The other flows that reach `n` by calls. */
  ghost predicate Reaches(arcs: Arcs, u: string, n: string) {
    u != n && Reach(arcs, u, n)
  }

  method CollectBodies(decls: seq<FlowDecl>) returns (bodies: Bodies)
    ensures bodies == BodiesOf(decls)
  {
    bodies := map[];
    for i := 0 to |decls|
      invariant bodies == BodiesOf(decls[..i])
    {
      ghost var done := decls[..i + 1];
      assert done[..|done| - 1] == decls[..i];
      if decls[i].name != "" { bodies := bodies[decls[i].name := decls[i].calls]; }
    }
    assert decls[..|decls|] == decls;
  }

  /** `uses` and `usedBy` hold the arcs whose source is in `done`. */
  ghost predicate Linked(bodies: Bodies, done: set<string>, uses: Links, usedBy: Links) {
    && uses.Keys == usedBy.Keys == bodies.Keys
    && (forall a, b :: a in bodies ==> (b in uses[a] <==> a in done && (a, b) in UseArcs(bodies)))
    && (forall a, b :: b in bodies ==> (a in usedBy[b] <==> a in done && (a, b) in UseArcs(bodies)))
  }

  /** The part of one body that has been looked at. */
  ghost predicate LinkedSoFar(bodies: Bodies, done: set<string>, name: string, k: nat, uses: Links, usedBy: Links)
    requires name in bodies && k <= |bodies[name]|
  {
    && uses.Keys == usedBy.Keys == bodies.Keys
    && (forall a, b :: a in bodies && a != name ==> (b in uses[a] <==> a in done && (a, b) in UseArcs(bodies)))
    && (forall b :: b in uses[name] <==> b in bodies[name][..k] && b in bodies && b != name)
    && (forall a, b :: b in bodies && a != name ==> (a in usedBy[b] <==> a in done && (a, b) in UseArcs(bodies)))
    && (forall b :: b in bodies ==> (name in usedBy[b] <==> b in bodies[name][..k] && b != name))
  }

  method LinkFlow(bodies: Bodies, name: string, ghost done: set<string>, uses0: Links, usedBy0: Links) returns (uses: Links, usedBy: Links)
    requires name in bodies && name !in done && Linked(bodies, done, uses0, usedBy0)
    ensures Linked(bodies, done + {name}, uses, usedBy)
  {
    uses, usedBy := uses0, usedBy0;
    var calls := bodies[name];
    for k := 0 to |calls|
      invariant LinkedSoFar(bodies, done, name, k, uses, usedBy)
    {
      var callee := calls[k];
      LinkOne(bodies, done, name, k, uses, usedBy);
      if callee != name && callee in bodies {
        uses := uses[name := uses[name] + {callee}];
        usedBy := usedBy[callee := usedBy[callee] + {name}];
      }
    }
    LinkedAll(bodies, done, name, uses, usedBy);
  }

  lemma LinkedAll(bodies: Bodies, done: set<string>, name: string, uses: Links, usedBy: Links)
    requires name in bodies && name !in done && LinkedSoFar(bodies, done, name, |bodies[name]|, uses, usedBy)
    ensures Linked(bodies, done + {name}, uses, usedBy)
  {
    var calls := bodies[name];
    assert calls[..|calls|] == calls;
    forall a, b | a in bodies ensures b in uses[a] <==> a in done + {name} && (a, b) in UseArcs(bodies) {
      if a == name { assert b in uses[name] <==> b in calls && b in bodies && b != name; }
    }
    forall a, b | b in bodies ensures a in usedBy[b] <==> a in done + {name} && (a, b) in UseArcs(bodies) {
      if a == name { assert name in usedBy[b] <==> b in calls && b != name; }
    }
  }

  lemma LinkOne(bodies: Bodies, done: set<string>, name: string, k: nat, uses: Links, usedBy: Links)
    requires name in bodies && k < |bodies[name]| && LinkedSoFar(bodies, done, name, k, uses, usedBy)
    ensures var callee := bodies[name][k];
      if callee != name && callee in bodies
      then LinkedSoFar(bodies, done, name, k + 1, uses[name := uses[name] + {callee}], usedBy[callee := usedBy[callee] + {name}])
      else LinkedSoFar(bodies, done, name, k + 1, uses, usedBy)
  {
    var calls := bodies[name];
    assert calls[..k + 1] == calls[..k] + [calls[k]];
  }

  method LinkFlows(bodies: Bodies) returns (uses: Links, usedBy: Links)
    ensures Linked(bodies, bodies.Keys, uses, usedBy)
  {
    uses := map n | n in bodies :: {};
    usedBy := map n | n in bodies :: {};
    var left := bodies.Keys;
    ghost var done: set<string> := {};
    while left != {}
      invariant left <= bodies.Keys && done == bodies.Keys - left && Linked(bodies, done, uses, usedBy)
      decreases left
    {
      var name :| name in left;
      uses, usedBy := LinkFlow(bodies, name, done, uses, usedBy);
      left := left - {name};
      done := done + {name};
    }
    assert done == bodies.Keys;
  }

  // ----- Impact -----

  /** The state of the closure: what has been seen reaches `name`, and the callers of everything seen
      are seen or wait on the stack. */
  ghost predicate Climbing(arcs: Arcs, name: string, seen: set<string>, stack: seq<string>) {
    && (forall u :: u in seen ==> Reaches(arcs, u, name))
    && (forall u :: u in stack ==> Reach(arcs, u, name))
    && (forall u, v :: (u, v) in arcs && (v in seen || v == name) && u != name ==> u in seen || u in stack)
  }

  lemma Climbed(arcs: Arcs, name: string, seen: set<string>)
    requires Climbing(arcs, name, seen, [])
    ensures forall u :: u in seen <==> Reaches(arcs, u, name)
  {
    forall u | Reaches(arcs, u, name) ensures u in seen {
      var p :| IsPathFrom(arcs, p, u, name);
      ClimbPath(arcs, name, seen, p);
    }
  }

  /** Along a path to `name` every other node has been seen. */
  lemma {:induction false} ClimbPath(arcs: Arcs, name: string, seen: set<string>, p: seq<string>)
    requires Climbing(arcs, name, seen, []) && IsPath(arcs, p) && p[|p| - 1] == name
    ensures p[0] == name || p[0] in seen
    decreases |p|
  {
    if |p| > 1 {
      assert (p[0], p[0 + 1]) in arcs;
      ClimbPath(arcs, name, seen, p[1..]);
    }
  }

  lemma TakeSeen(arcs: Arcs, name: string, seen: set<string>, stack: seq<string>)
    requires stack != [] && Climbing(arcs, name, seen, stack) && (stack[|stack| - 1] == name || stack[|stack| - 1] in seen)
    ensures Climbing(arcs, name, seen, stack[..|stack| - 1])
  {
    assert stack == stack[..|stack| - 1] + [stack[|stack| - 1]];
  }

  lemma TakeNew(arcs: Arcs, name: string, seen: set<string>, stack: seq<string>, more: seq<string>)
    requires stack != [] && Climbing(arcs, name, seen, stack) && stack[|stack| - 1] != name
    requires forall u :: u in more ==> (u, stack[|stack| - 1]) in arcs
    requires forall u :: (u, stack[|stack| - 1]) in arcs && u != name && u !in seen && u != stack[|stack| - 1] ==> u in more
    ensures Climbing(arcs, name, seen + {stack[|stack| - 1]}, stack[..|stack| - 1] + more)
  {
    var cur := stack[|stack| - 1];
    assert stack == stack[..|stack| - 1] + [cur];
    assert cur in stack;
    forall u | u in more ensures Reach(arcs, u, name) { ArcThenReach(arcs, u, cur, name); }
  }

  /** Some sequence of the members of a finite set. */
  method Listing(s: set<string>) returns (l: seq<string>)
    ensures Distinct(l) && forall x :: x in l <==> x in s
  {
    l := [];
    var left := s;
    while left != {}
      invariant left <= s && Distinct(l) && forall x :: x in l <==> x in s && x !in left
      decreases left
    {
      var x :| x in left;
      l := l + [x];
      left := left - {x};
    }
  }

  /** The flows other than `name` that reach it. */
  method ImpactSet(bodies: Bodies, usedBy: Links, ghost uses: Links, name: string) returns (seen: set<string>)
    requires Linked(bodies, bodies.Keys, uses, usedBy) && name in bodies
    ensures forall u :: u in seen <==> Reaches(UseArcs(bodies), u, name)
  {
    ghost var arcs := UseArcs(bodies);
    seen := {};
    var stack := Listing(usedBy[name]);
    forall u | u in stack ensures Reach(arcs, u, name) { ReachArc(arcs, u, name); }
    while stack != []
      invariant Climbing(arcs, name, seen, stack) && seen <= bodies.Keys && forall u :: u in stack ==> u in bodies
      decreases bodies.Keys - seen, |stack|
    {
      var cur := stack[|stack| - 1];
      assert cur in stack;
      if cur == name || cur in seen {
        TakeSeen(arcs, name, seen, stack);
        stack := stack[..|stack| - 1];
        continue;
      }
      var more := Listing(usedBy[cur] - seen - {cur, name});
      TakeNew(arcs, name, seen, stack, more);
      seen := seen + {cur};
      stack := stack[..|stack| - 1] + more;
    }
    Climbed(arcs, name, seen);
  }

  // ----- The result -----

  ghost predicate ListsExactly(l: seq<string>, s: set<string>) {
    Ascending(l) && forall x :: x in l <==> x in s
  }

  ghost predicate IsExact(bodies: Bodies, n: string, d: Dependencies) {
    var arcs := UseArcs(bodies);
    && ListsExactly(d.uses, set b | b in bodies && (n, b) in arcs)
    && ListsExactly(d.usedBy, set a | a in bodies && (a, n) in arcs)
    && d.impact == |set u | u in bodies && Reaches(arcs, u, n)|
  }

  method SortedListing(s: set<string>) returns (l: seq<string>)
    ensures ListsExactly(l, s)
  {
    var unsorted := Listing(s);
    LeIsTotalOrder();
    SortSorted(unsorted, Le);
    SortKeepsElements(unsorted, Le);
    l := Sort(unsorted, Le);
    SortedAscends(l);
  }

  method AnalyzeFlowDependencies(decls: seq<FlowDecl>) returns (out: map<string, Dependencies>)
    ensures out.Keys == BodiesOf(decls).Keys
    ensures forall n :: n in out ==> IsExact(BodiesOf(decls), n, out[n])
  {
    var bodies := CollectBodies(decls);
    var uses, usedBy := LinkFlows(bodies);
    out := map[];
    var left := bodies.Keys;
    while left != {}
      invariant left <= bodies.Keys && out.Keys == bodies.Keys - left
      invariant forall n :: n in out ==> IsExact(bodies, n, out[n])
      decreases left
    {
      var name :| name in left;
      var d := DependenciesOf(bodies, uses, usedBy, name);
      out := out[name := d];
      left := left - {name};
    }
  }

  method DependenciesOf(bodies: Bodies, uses: Links, usedBy: Links, name: string) returns (d: Dependencies)
    requires Linked(bodies, bodies.Keys, uses, usedBy) && name in bodies
    ensures IsExact(bodies, name, d)
  {
    ghost var arcs := UseArcs(bodies);
    var seen := ImpactSet(bodies, usedBy, uses, name);
    var up := SortedListing(uses[name]);
    var down := SortedListing(usedBy[name]);
    d := Dependencies(up, down, |seen|);
    assert uses[name] == set b | b in bodies && (name, b) in arcs;
    assert usedBy[name] == set a | a in bodies && (a, name) in arcs;
    forall u | u in seen ensures u in bodies { ReacherIsFlow(bodies, u, name); }
    assert seen == set u | u in bodies && Reaches(arcs, u, name);
  }

  lemma ReacherIsFlow(bodies: Bodies, u: string, n: string)
    requires Reaches(UseArcs(bodies), u, n)
    ensures u in bodies
  {
    var p :| IsPathFrom(UseArcs(bodies), p, u, n);
    assert (p[0], p[0 + 1]) in UseArcs(bodies);
  }

  /** The impact is nothing exactly when no other flow calls the flow: then it may be deleted. */
  lemma NoImpactMeansUncalled(bodies: Bodies, n: string, d: Dependencies)
    requires n in bodies && IsExact(bodies, n, d)
    ensures d.impact == 0 <==> forall a :: (a, n) !in UseArcs(bodies)
  {
    var arcs := UseArcs(bodies);
    var reachers := set u | u in bodies && Reaches(arcs, u, n);
    if a :| (a, n) in arcs {
      ReachArc(arcs, a, n);
      assert a in reachers;
    }
    if reachers != {} {
      var u :| u in reachers;
      var p :| IsPathFrom(arcs, p, u, n);
      assert (p[|p| - 2], p[|p| - 2 + 1]) in arcs;
    } else {
      assert |reachers| == 0;
    }
  }

  // ----- A name declared twice -----

  /** Some declaration of the program, not only the last of its name, calls `n` from another flow. */
  ghost predicate CalledBySome(decls: seq<FlowDecl>, n: string) {
    exists i :: 0 <= i < |decls| && decls[i].name != "" && decls[i].name != n && n in decls[i].calls
  }

  /** No later declaration has the same name. */
  ghost predicate IsLast(decls: seq<FlowDecl>, i: int)
    requires 0 <= i < |decls|
  {
    forall j :: i < j < |decls| ==> decls[j].name != decls[i].name
  }

  /** The last declaration of some other name calls `n`. */
  ghost predicate CalledByLast(decls: seq<FlowDecl>, n: string) {
    exists i :: 0 <= i < |decls| && IsLast(decls, i) && decls[i].name != "" && decls[i].name != n && n in decls[i].calls
  }

  ghost predicate NamesDistinct(decls: seq<FlowDecl>) {
    forall i, j :: 0 <= i < j < |decls| ==> decls[i].name != decls[j].name
  }

  lemma {:induction false} BodyOfDecl(decls: seq<FlowDecl>, i: nat)
    requires i < |decls| && decls[i].name != "" && IsLast(decls, i)
    ensures decls[i].name in BodiesOf(decls) && BodiesOf(decls)[decls[i].name] == decls[i].calls
  {
    if i < |decls| - 1 {
      var before := decls[..|decls| - 1];
      forall j | i < j < |before| ensures before[j].name != before[i].name { assert before[j] == decls[j]; }
      BodyOfDecl(before, i);
    }
  }

  lemma {:induction false} DeclOfBody(decls: seq<FlowDecl>, a: string) returns (i: nat)
    requires a in BodiesOf(decls)
    ensures i < |decls| && decls[i].name == a != "" && decls[i].calls == BodiesOf(decls)[a] && IsLast(decls, i)
  {
    var k := |decls| - 1;
    if decls[k].name == a && a != "" { i := k; } else {
      i := DeclOfBody(decls[..k], a);
      forall j | i < j < |decls| ensures decls[j].name != a {
        if j < k { assert decls[..k][j] == decls[j]; }
      }
    }
  }

  /** On every program the impact is nothing exactly when no last declaration of another name calls the flow. */
  lemma LastBodiesDecide(decls: seq<FlowDecl>, n: string, d: Dependencies)
    requires n in BodiesOf(decls) && IsExact(BodiesOf(decls), n, d)
    ensures d.impact == 0 <==> !CalledByLast(decls, n)
  {
    var bodies := BodiesOf(decls);
    NoImpactMeansUncalled(bodies, n, d);
    if CalledByLast(decls, n) {
      var i :| 0 <= i < |decls| && IsLast(decls, i) && decls[i].name != "" && decls[i].name != n && n in decls[i].calls;
      BodyOfDecl(decls, i);
      assert (decls[i].name, n) in UseArcs(bodies);
    }
    if a :| (a, n) in UseArcs(bodies) {
      var i := DeclOfBody(decls, a);
      assert IsLast(decls, i) && decls[i].name != n && n in decls[i].calls;
    }
  }

  /** "Safe to delete" is true of a flow, in the sense that no declaration at all calls it from another
      flow, exactly when some last declaration still calls it whenever an overwritten one did. */
  lemma SafeToDeleteExactly(decls: seq<FlowDecl>, n: string, d: Dependencies)
    requires n in BodiesOf(decls) && IsExact(BodiesOf(decls), n, d)
    ensures (d.impact == 0 ==> !CalledBySome(decls, n)) <==> (CalledBySome(decls, n) ==> CalledByLast(decls, n))
  {
    LastBodiesDecide(decls, n, d);
  }

  /** With distinct names that is always so. */
  lemma DistinctNamesAreSafe(decls: seq<FlowDecl>, n: string, d: Dependencies)
    requires NamesDistinct(decls) && n in BodiesOf(decls) && IsExact(BodiesOf(decls), n, d)
    ensures d.impact == 0 <==> !CalledBySome(decls, n)
  {
    LastBodiesDecide(decls, n, d);
    forall i | 0 <= i < |decls| ensures IsLast(decls, i) {}
  }

  /** With a name declared twice the earlier body is forgotten: a flow that it calls counts as safe to delete. */
  lemma SecondDeclarationHidesCalls(d: Dependencies)
    requires IsExact(BodiesOf([FlowDecl("f", ["g"]), FlowDecl("g", []), FlowDecl("f", [])]), "g", d)
    ensures d.impact == 0 && CalledBySome([FlowDecl("f", ["g"]), FlowDecl("g", []), FlowDecl("f", [])], "g")
  {
    var decls := [FlowDecl("f", ["g"]), FlowDecl("g", []), FlowDecl("f", [])];
    assert decls[0].name == "f" && "g" in decls[0].calls;
    assert decls[..2] == [FlowDecl("f", ["g"]), FlowDecl("g", [])] && decls[..2][..1] == [FlowDecl("f", ["g"])] && decls[..2][..1][..0] == [];
    var bodies := BodiesOf(decls);
    assert BodiesOf(decls[..2][..1]) == map["f" := ["g"]];
    assert BodiesOf(decls[..2]) == map["f" := ["g"], "g" := []];
    assert bodies == map["f" := [], "g" := []];
    NoImpactMeansUncalled(bodies, "g", d);
  }
}
