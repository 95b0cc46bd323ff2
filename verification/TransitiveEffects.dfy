/** The two depth-first walks over the call graph (`effect-checker.ts`, collectTransitiveCalledEffects
    and hasTransitiveEffect). Both share one set of seen flows through all nested calls. */
module TransitiveEffects {
  import opened Options
  import opened Reachability
  import opened EffectClosure

  datatype FlowMeta = FlowMeta(name: string, declared: seq<string>)

  /** The first flow of that name. */
  function Find(flows: seq<FlowMeta>, name: string): Option<FlowMeta> {
    if flows == [] then None
    else if flows[0].name == name then Some(flows[0])
    else Find(flows[1..], name)
  }

  /** The first declaration of the name declares the effect. */
  ghost predicate FirstDeclares(flows: seq<FlowMeta>, name: string, effect: string, i: int) {
    0 <= i < |flows| && flows[i].name == name && effect in flows[i].declared && forall j :: 0 <= j < i ==> flows[j].name != name
  }

  lemma {:induction false} DeclaresMeans(flows: seq<FlowMeta>, name: string, effect: string)
    ensures Declares(flows, name, effect) <==> exists i :: FirstDeclares(flows, name, effect, i)
    ensures Known(flows, name) <==> exists i :: 0 <= i < |flows| && flows[i].name == name
  {
    if flows != [] {
      var rest := flows[1..];
      DeclaresMeans(rest, name, effect);
      if flows[0].name == name {
        assert effect in flows[0].declared ==> FirstDeclares(flows, name, effect, 0);
      } else {
        if i :| FirstDeclares(rest, name, effect, i) { assert FirstDeclares(flows, name, effect, i + 1); }
        if i :| FirstDeclares(flows, name, effect, i) { assert FirstDeclares(rest, name, effect, i - 1); }
        if i :| 0 <= i < |rest| && rest[i].name == name { assert flows[i + 1].name == name; }
        if i :| 0 <= i < |flows| && flows[i].name == name { assert rest[i - 1].name == name; }
      }
    }
  }

  predicate Known(flows: seq<FlowMeta>, name: string) {
    Find(flows, name).Some?
  }

  predicate Declares(flows: seq<FlowMeta>, name: string, effect: string) {
    Known(flows, name) && effect in Find(flows, name).value.declared
  }

  ghost function Called(calls: Calls): set<string> {
    set a, b | a in calls && b in calls[a] :: b
  }

  ghost function AllNames(calls: Calls): set<string> {
    calls.Keys + Called(calls)
  }

  /** The calls of the graph; `KnownArcs` keeps those to flows that are declared. */
  ghost function AllArcs(calls: Calls): Arcs {
    CallArcs(calls.Keys, calls)
  }

  ghost function KnownArcs(flows: seq<FlowMeta>, calls: Calls): Arcs {
    set e | e in AllArcs(calls) && Known(flows, e.1)
  }

  /** Some flow reached from `flow` by at least one call declares the effect; `w` is that flow. */
  ghost predicate Introduces(flows: seq<FlowMeta>, arcs: Arcs, flow: string, w: string, effect: string) {
    Declares(flows, w, effect) && exists u :: Reach(arcs, flow, u) && (u, w) in arcs
  }

  lemma IntroducedLater(flows: seq<FlowMeta>, arcs: Arcs, flow: string, next: string, w: string, effect: string)
    requires (flow, next) in arcs && Introduces(flows, arcs, next, w, effect)
    ensures Introduces(flows, arcs, flow, w, effect)
  {
    var u :| Reach(arcs, next, u) && (u, w) in arcs;
    ArcThenReach(arcs, flow, next, u);
  }

  // ----- Is the effect there? -----

  /** No callee of `u` declares the effect, and all of them have been seen. */
  ghost predicate Clear(flows: seq<FlowMeta>, calls: Calls, u: string, effect: string, seen: set<string>) {
    forall w :: w in Callees(calls, u) ==> !Declares(flows, w, effect) && w in seen
  }

  method HasTransitiveEffect(flow: string, effect: string, flows: seq<FlowMeta>, calls: Calls, seen0: set<string>)
    returns (found: bool, seen: set<string>)
    ensures seen0 <= seen && flow in seen
    ensures found ==> exists w :: Introduces(flows, AllArcs(calls), flow, w, effect)
    ensures !found ==> forall u :: u in seen && u !in seen0 ==> Clear(flows, calls, u, effect, seen)
    decreases AllNames(calls) - seen0, |Callees(calls, flow)|
  {
    seen := seen0;
    if flow in seen { return false, seen; }
    seen := seen + {flow};
    var called := Callees(calls, flow);
    for i := 0 to |called|
      invariant seen0 + {flow} <= seen
      invariant forall u :: u in seen && u !in seen0 && u != flow ==> Clear(flows, calls, u, effect, seen)
      invariant forall j :: 0 <= j < i ==> !Declares(flows, called[j], effect) && called[j] in seen
    {
      var next := called[i];
      assert (flow, next) in AllArcs(calls) && flow in AllNames(calls);
      ReachSelf(AllArcs(calls), flow);
      if Declares(flows, next, effect) {
        assert Introduces(flows, AllArcs(calls), flow, next, effect);
        return true, seen;
      }
      found, seen := HasTransitiveEffect(next, effect, flows, calls, seen);
      if found {
        ghost var w :| Introduces(flows, AllArcs(calls), next, w, effect);
        IntroducedLater(flows, AllArcs(calls), flow, next, w, effect);
        return;
      }
    }
    found := false;
  }

  /** Asked from scratch, the walk answers exactly. */
  method HasEffect(flow: string, effect: string, flows: seq<FlowMeta>, calls: Calls) returns (found: bool)
    ensures found <==> exists w :: Introduces(flows, AllArcs(calls), flow, w, effect)
  {
    var seen;
    found, seen := HasTransitiveEffect(flow, effect, flows, calls, {});
    if !found { ClearMeansNone(flows, calls, flow, effect, seen); }
  }

  lemma ClearMeansNone(flows: seq<FlowMeta>, calls: Calls, flow: string, effect: string, seen: set<string>)
    requires flow in seen && forall u :: u in seen ==> Clear(flows, calls, u, effect, seen)
    ensures forall w :: !Introduces(flows, AllArcs(calls), flow, w, effect)
  {
    var arcs := AllArcs(calls);
    assert Closed(arcs, seen);
    forall w, u | Reach(arcs, flow, u) && (u, w) in arcs ensures !Declares(flows, w, effect) {
      ReachStaysInClosed(arcs, seen, flow, u);
      assert Clear(flows, calls, u, effect, seen);
    }
  }

  // ----- All effects, with the flow that introduces each -----

  /** Every declared callee of `u` has been seen and its effects collected. */
  ghost predicate Collected(flows: seq<FlowMeta>, calls: Calls, u: string, effects: set<string>, seen: set<string>) {
    forall w :: w in Callees(calls, u) && Known(flows, w) ==> TakenIn(flows, w, effects, seen)
  }

  ghost predicate TakenIn(flows: seq<FlowMeta>, w: string, effects: set<string>, seen: set<string>) {
    w in seen && forall e :: Declares(flows, w, e) ==> e in effects
  }

  ghost predicate AllIntroduced(flows: seq<FlowMeta>, arcs: Arcs, flow: string, effects: map<string, string>) {
    forall e :: e in effects ==> Introduces(flows, arcs, flow, effects[e], e)
  }

  /** Add the effects a flow declares, unless some other flow has introduced them already. */
  method AddDeclared(declared: seq<string>, name: string, effects0: map<string, string>) returns (effects: map<string, string>)
    ensures effects.Keys == effects0.Keys + set e | e in declared
    ensures forall e :: e in effects ==> effects[e] == if e in effects0 then effects0[e] else name
  {
    effects := effects0;
    for i := 0 to |declared|
      invariant effects.Keys == effects0.Keys + set e | e in declared[..i]
      invariant forall e :: e in effects ==> effects[e] == if e in effects0 then effects0[e] else name
    {
      assert declared[..i + 1] == declared[..i] + [declared[i]];
      if declared[i] !in effects { effects := effects[declared[i] := name]; }
    }
    assert declared[..|declared|] == declared;
  }

  method CollectTransitiveCalledEffects(flow: string, flows: seq<FlowMeta>, calls: Calls, seen0: set<string>)
    returns (effects: map<string, string>, seen: set<string>)
    requires flow in seen0
    ensures seen0 <= seen
    ensures AllIntroduced(flows, KnownArcs(flows, calls), flow, effects)
    ensures Collected(flows, calls, flow, effects.Keys, seen)
    ensures forall u :: u in seen && u !in seen0 ==> Collected(flows, calls, u, effects.Keys, seen)
    decreases AllNames(calls) - seen0
  {
    effects, seen := map[], seen0;
    ghost var arcs := KnownArcs(flows, calls);
    var called := Callees(calls, flow);
    ReachSelf(arcs, flow);
    for i := 0 to |called|
      invariant seen0 <= seen && AllIntroduced(flows, arcs, flow, effects)
      invariant forall u :: u in seen && u !in seen0 ==> Collected(flows, calls, u, effects.Keys, seen)
      invariant forall j :: 0 <= j < i && Known(flows, called[j]) ==> TakenIn(flows, called[j], effects.Keys, seen)
    {
      var next := called[i];
      var meta := Find(flows, next);
      if meta.None? { continue; }
      assert (flow, next) in arcs && next in AllNames(calls);
      ghost var effects', seen' := effects.Keys, seen;
      effects := AddDeclared(meta.value.declared, next, effects);
      if next !in seen {
        seen := seen + {next};
        var inner;
        inner, seen := CollectTransitiveCalledEffects(next, flows, calls, seen);
        InnerIntroduced(flows, arcs, flow, next, inner);
        effects := inner + effects;
      }
      MoreCollected(flows, calls, seen0, seen', effects', seen, effects.Keys);
    }
  }

  lemma InnerIntroduced(flows: seq<FlowMeta>, arcs: Arcs, flow: string, next: string, inner: map<string, string>)
    requires (flow, next) in arcs && AllIntroduced(flows, arcs, next, inner)
    ensures AllIntroduced(flows, arcs, flow, inner)
  {
    forall e | e in inner ensures Introduces(flows, arcs, flow, inner[e], e) {
      IntroducedLater(flows, arcs, flow, next, inner[e], e);
    }
  }

  lemma MoreCollected(flows: seq<FlowMeta>, calls: Calls, seen0: set<string>, seen: set<string>, effects: set<string>, seen': set<string>, effects': set<string>)
    requires forall u :: u in seen && u !in seen0 ==> Collected(flows, calls, u, effects, seen)
    requires seen <= seen' && effects <= effects'
    ensures forall u :: u in seen && u !in seen0 ==> Collected(flows, calls, u, effects', seen')
    ensures forall w :: TakenIn(flows, w, effects, seen) ==> TakenIn(flows, w, effects', seen')
  {
    forall u | u in seen && u !in seen0 ensures Collected(flows, calls, u, effects', seen') {
      forall w | w in Callees(calls, u) && Known(flows, w) ensures TakenIn(flows, w, effects', seen') {
        assert TakenIn(flows, w, effects, seen);
      }
    }
  }

  /** Asked from scratch, the walk collects exactly the effects introduced along declared flows, and
      names for each a flow that declares it. */
  method CollectEffects(flow: string, flows: seq<FlowMeta>, calls: Calls) returns (effects: map<string, string>)
    ensures forall e :: e in effects <==> exists w :: Introduces(flows, KnownArcs(flows, calls), flow, w, e)
    ensures forall e :: e in effects ==> Introduces(flows, KnownArcs(flows, calls), flow, effects[e], e)
  {
    var seen;
    effects, seen := CollectTransitiveCalledEffects(flow, flows, calls, {flow});
    CollectedMeansAll(flows, calls, flow, effects.Keys, seen);
  }

  lemma CollectedMeansAll(flows: seq<FlowMeta>, calls: Calls, flow: string, effects: set<string>, seen: set<string>)
    requires flow in seen && forall u :: u in seen ==> Collected(flows, calls, u, effects, seen)
    ensures forall w, e :: Introduces(flows, KnownArcs(flows, calls), flow, w, e) ==> e in effects
  {
    var arcs := KnownArcs(flows, calls);
    forall a | a in arcs && a.0 in seen ensures a.1 in seen {
      assert Collected(flows, calls, a.0, effects, seen);
      assert TakenIn(flows, a.1, effects, seen);
    }
    forall w, e | Introduces(flows, arcs, flow, w, e) ensures e in effects {
      var u :| Reach(arcs, flow, u) && (u, w) in arcs;
      ReachStaysInClosed(arcs, seen, flow, u);
      assert Collected(flows, calls, u, effects, seen);
      assert TakenIn(flows, w, effects, seen);
    }
  }

  // ----- The two walks agree -----

  /** Only declared flows have calls of their own, as in a graph built from the declared flows. */
  ghost predicate CallersDeclared(flows: seq<FlowMeta>, calls: Calls) {
    forall a :: a in calls && calls[a] != [] ==> Known(flows, a)
  }

  lemma {:induction false} DeclaredPath(flows: seq<FlowMeta>, calls: Calls, p: seq<string>, w: string)
    requires CallersDeclared(flows, calls) && IsPath(AllArcs(calls), p) && (p[|p| - 1], w) in AllArcs(calls)
    ensures IsPath(KnownArcs(flows, calls), p)
  {
    var arcs := AllArcs(calls);
    forall i | 0 <= i < |p| - 1 ensures (p[i], p[i + 1]) in KnownArcs(flows, calls) {
      if i + 1 < |p| - 1 { assert (p[i + 1], p[i + 1 + 1]) in arcs; }
      assert p[i + 1] in calls && calls[p[i + 1]] != [];
    }
  }

  /** An effect is found by one walk exactly when it is collected by the other. */
  lemma WalksAgree(flows: seq<FlowMeta>, calls: Calls, flow: string, w: string, effect: string)
    requires CallersDeclared(flows, calls)
    ensures Introduces(flows, AllArcs(calls), flow, w, effect) <==> Introduces(flows, KnownArcs(flows, calls), flow, w, effect)
  {
    var all, known := AllArcs(calls), KnownArcs(flows, calls);
    if Introduces(flows, all, flow, w, effect) {
      var u :| Reach(all, flow, u) && (u, w) in all;
      var p :| IsPathFrom(all, p, flow, u);
      DeclaredPath(flows, calls, p, w);
      assert IsPathFrom(known, p, flow, u);
    }
    if Introduces(flows, known, flow, w, effect) {
      var u :| Reach(known, flow, u) && (u, w) in known;
      var p :| IsPathFrom(known, p, flow, u);
      forall i | 0 <= i < |p| - 1 ensures (p[i], p[i + 1]) in all { assert (p[i], p[i + 1]) in known; }
      assert IsPathFrom(all, p, flow, u);
    }
  }
}
