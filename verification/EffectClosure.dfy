/** The closure of effects over the call graph (`effect-checker.ts`, buildRequirementEffectContext):
    passes over the flows that add what the callees need, in place, until nothing changes. */
module EffectClosure {
  import opened CodeUnitOrder
  import opened Folding
  import opened Reachability

  type Effects = map<string, set<string>>
  type Completeness = map<string, bool>
  type Calls = map<string, seq<string>>

  function Callees(calls: Calls, name: string): seq<string> {
    if name in calls then calls[name] else []
  }

  // ----- One view of effects and completeness -----

  /** What is known against a flow: an effect it needs, or that its effects are not all known. */
  datatype Token = Needs(effect: string) | Incomplete

  type Tokens = map<string, set<Token>>

  ghost function TokensOf(effects: set<string>, complete: bool): set<Token> {
    (set e | e in effects :: Needs(e)) + if complete then {} else {Incomplete}
  }

  ghost function View(effects: Effects, complete: Completeness): Tokens {
    map v | v in effects :: TokensOf(effects[v], v in complete && complete[v])
  }

  /** A target without an entry is one nothing is known about. */
  ghost function At(tok: Tokens, v: string): set<Token> {
    if v in tok then tok[v] else {Incomplete}
  }

  // ----- What one pass does -----

  ghost function Gather(tok: Tokens, targets: seq<string>): set<Token> {
    if targets == [] then {} else Gather(tok, targets[..|targets| - 1]) + At(tok, targets[|targets| - 1])
  }

  lemma {:induction false} GatherHas(tok: Tokens, targets: seq<string>, w: string)
    requires w in targets
    ensures At(tok, w) <= Gather(tok, targets)
  {
    if w != targets[|targets| - 1] { GatherHas(tok, targets[..|targets| - 1], w); }
  }

  lemma {:induction false} GatherOnly(tok: Tokens, targets: seq<string>, t: Token) returns (w: string)
    requires t in Gather(tok, targets)
    ensures w in targets && t in At(tok, w)
  {
    w := targets[|targets| - 1];
    if t !in At(tok, w) { w := GatherOnly(tok, targets[..|targets| - 1], t); }
  }

  ghost function Visited(tok: Tokens, name: string, targets: seq<string>): Tokens
    requires name in tok
  {
    tok[name := tok[name] + Gather(tok, targets)]
  }

  ghost function Visit(tok: Tokens, calls: Calls, name: string): Tokens {
    if name in tok then Visited(tok, name, Callees(calls, name)) else tok
  }

  ghost function PassOf(tok: Tokens, calls: Calls, ordered: seq<string>): Tokens {
    if ordered == [] then tok else Visit(PassOf(tok, calls, ordered[..|ordered| - 1]), calls, ordered[|ordered| - 1])
  }

  ghost predicate Grows(a: Tokens, b: Tokens) {
    a.Keys == b.Keys && forall v :: v in a ==> a[v] <= b[v]
  }

  lemma {:induction false} PassGrows(tok: Tokens, calls: Calls, ordered: seq<string>)
    ensures Grows(tok, PassOf(tok, calls, ordered))
  {
    if ordered != [] { PassGrows(tok, calls, ordered[..|ordered| - 1]); }
  }

  lemma {:induction false} PassCovers(tok: Tokens, calls: Calls, ordered: seq<string>, v: string, w: string)
    requires v in ordered && v in tok && w in Callees(calls, v)
    ensures v in PassOf(tok, calls, ordered) && At(tok, w) <= PassOf(tok, calls, ordered)[v]
  {
    var init, last := ordered[..|ordered| - 1], ordered[|ordered| - 1];
    PassGrows(tok, calls, init);
    if v == last {
      GatherHas(PassOf(tok, calls, init), Callees(calls, v), w);
    } else {
      PassCovers(tok, calls, init, v, w);
    }
  }

  /** A flow visited after its callee has everything the callee ends up with. */
  lemma {:induction false} PassInOrder(tok: Tokens, calls: Calls, ordered: seq<string>, i: nat, w: string)
    requires Distinct(ordered) && i < |ordered| && ordered[i] in tok && w in Callees(calls, ordered[i]) && w in ordered[..i]
    ensures ordered[i] in PassOf(tok, calls, ordered)
    ensures At(PassOf(tok, calls, ordered), w) <= PassOf(tok, calls, ordered)[ordered[i]]
    decreases |ordered|
  {
    var k := |ordered| - 1;
    var init := ordered[..k];
    PassGrows(tok, calls, init);
    if i == k {
      GatherHas(PassOf(tok, calls, init), Callees(calls, ordered[k]), w);
    } else {
      assert init[..i] == ordered[..i] && w != ordered[k];
      PassInOrder(tok, calls, init, i, w);
    }
  }

  // ----- The declarative meaning -----

  ghost function CallArcs(flows: set<string>, calls: Calls): Arcs {
    set a, b | a in flows && a in calls && b in calls[a] :: (a, b)
  }

  /** Everything against `v` comes from a flow it reaches. */
  ghost predicate Sound(own: Tokens, arcs: Arcs, tok: Tokens) {
    forall v, t :: v in tok && t in tok[v] ==> Comes(own, arcs, v, t)
  }

  ghost predicate Comes(own: Tokens, arcs: Arcs, v: string, t: Token) {
    exists u :: Reach(arcs, v, u) && t in At(own, u)
  }

  /** What is at the end of a path of at most `k` calls has arrived at its start. */
  ghost predicate Covered(own: Tokens, arcs: Arcs, tok: Tokens, k: int) {
    forall p :: IsPath(arcs, p) && |p| <= k + 1 && p[0] in tok ==> At(own, p[|p| - 1]) <= tok[p[0]]
  }

  ghost predicate Exact(own: Tokens, arcs: Arcs, tok: Tokens) {
    forall v, t :: v in tok ==> (t in tok[v] <==> Comes(own, arcs, v, t))
  }

  lemma VisitSound(own: Tokens, tok: Tokens, calls: Calls, name: string)
    requires tok.Keys == own.Keys && Sound(own, CallArcs(own.Keys, calls), tok)
    ensures Sound(own, CallArcs(own.Keys, calls), Visit(tok, calls, name))
  {
    var arcs := CallArcs(own.Keys, calls);
    if name in tok {
      forall t | t in Gather(tok, Callees(calls, name)) ensures Comes(own, arcs, name, t) {
        var w := GatherOnly(tok, Callees(calls, name), t);
        assert (name, w) in arcs;
        if w in tok {
          assert Comes(own, arcs, w, t);
          var u :| Reach(arcs, w, u) && t in At(own, u);
          ArcThenReach(arcs, name, w, u);
        } else {
          ReachArc(arcs, name, w);
        }
      }
    }
  }

  lemma {:induction false} PassSound(own: Tokens, tok: Tokens, calls: Calls, ordered: seq<string>)
    requires tok.Keys == own.Keys && Sound(own, CallArcs(own.Keys, calls), tok)
    ensures Sound(own, CallArcs(own.Keys, calls), PassOf(tok, calls, ordered))
  {
    if ordered != [] {
      var init := ordered[..|ordered| - 1];
      PassSound(own, tok, calls, init);
      PassGrows(tok, calls, init);
      VisitSound(own, PassOf(tok, calls, init), calls, ordered[|ordered| - 1]);
    }
  }

  /** Each pass lets everything travel at least one call further. */
  lemma PassReachesFurther(own: Tokens, tok: Tokens, calls: Calls, ordered: seq<string>, k: nat)
    requires tok.Keys == own.Keys && Grows(own, tok) && (forall v :: v in own ==> v in ordered)
    requires Covered(own, CallArcs(own.Keys, calls), tok, k)
    ensures Covered(own, CallArcs(own.Keys, calls), PassOf(tok, calls, ordered), k + 1)
  {
    var arcs, next := CallArcs(own.Keys, calls), PassOf(tok, calls, ordered);
    PassGrows(tok, calls, ordered);
    forall p | IsPath(arcs, p) && |p| <= k + 2 && p[0] in next ensures At(own, p[|p| - 1]) <= next[p[0]] {
      if |p| > 1 {
        var rest := p[1..];
        assert (p[0], p[0 + 1]) in arcs && IsPath(arcs, rest);
        PassCovers(tok, calls, ordered, p[0], p[1]);
        assert |rest| > 1 ==> (rest[0], rest[0 + 1]) in arcs;
        assert At(own, rest[|rest| - 1]) <= At(tok, rest[0]);
      }
    }
  }

  // ----- Short paths -----

  lemma {:induction false} NoRoom(s: seq<string>, nodes: set<string>)
    requires Distinct(s) && forall x :: x in s ==> x in nodes
    ensures |s| <= |nodes|
  {
    if s != [] {
      var k := |s| - 1;
      assert forall x :: x in s[..k] ==> x in nodes - {s[k]};
      NoRoom(s[..k], nodes - {s[k]});
    }
  }

  /** A path can be cut down until it visits no node twice. */
  lemma {:induction false} ShortPath(arcs: Arcs, nodes: set<string>, p: seq<string>) returns (q: seq<string>)
    requires IsPath(arcs, p) && forall x :: x in p ==> x in nodes
    ensures IsPathFrom(arcs, q, p[0], p[|p| - 1]) && |q| <= |nodes|
    decreases |p|
  {
    if Distinct(p) {
      NoRoom(p, nodes);
      q := p;
    } else {
      var i, j :| 0 <= i < j < |p| && p[i] == p[j];
      PathPrefix(arcs, p, i);
      PathPrefix(arcs, p, j);
      PathConcat(arcs, p[..i + 1], p[j..]);
      var r := p[..i + 1] + p[j..][1..];
      q := ShortPath(arcs, nodes, r);
    }
  }

  lemma CoveredIsExact(own: Tokens, tok: Tokens, calls: Calls, nodes: set<string>)
    requires tok.Keys == own.Keys && Sound(own, CallArcs(own.Keys, calls), tok)
    requires own.Keys <= nodes && forall e :: e in CallArcs(own.Keys, calls) ==> e.1 in nodes
    requires Covered(own, CallArcs(own.Keys, calls), tok, |nodes| - 1)
    ensures Exact(own, CallArcs(own.Keys, calls), tok)
  {
    var arcs := CallArcs(own.Keys, calls);
    forall v, u | v in tok && Reach(arcs, v, u) ensures At(own, u) <= tok[v] {
      var p :| IsPathFrom(arcs, p, v, u);
      forall i | 0 <= i < |p| ensures p[i] in nodes {
        if i > 0 { assert (p[i - 1], p[i - 1 + 1]) in arcs; }
      }
      var q := ShortPath(arcs, nodes, p);
    }
  }

  /** An exact assignment does not change any more. */
  lemma ExactStays(own: Tokens, tok: Tokens, calls: Calls, ordered: seq<string>)
    requires tok.Keys == own.Keys && Exact(own, CallArcs(own.Keys, calls), tok)
    ensures PassOf(tok, calls, ordered) == tok
  {
    var next := PassOf(tok, calls, ordered);
    PassGrows(tok, calls, ordered);
    PassSound(own, tok, calls, ordered);
    forall v | v in tok ensures next[v] == tok[v] {}
  }

  /** A closed assignment is exact. */
  lemma ClosedIsExact(own: Tokens, tok: Tokens, calls: Calls)
    requires Grows(own, tok) && Sound(own, CallArcs(own.Keys, calls), tok)
    requires forall e :: e in CallArcs(own.Keys, calls) ==> At(tok, e.1) <= At(tok, e.0)
    ensures Exact(own, CallArcs(own.Keys, calls), tok)
  {
    var arcs := CallArcs(own.Keys, calls);
    forall v, u | v in tok && Reach(arcs, v, u) ensures At(own, u) <= tok[v] {
      var p :| IsPathFrom(arcs, p, v, u);
      ClosedAlong(own, tok, arcs, p);
    }
  }

  lemma {:induction false} ClosedAlong(own: Tokens, tok: Tokens, arcs: Arcs, p: seq<string>)
    requires Grows(own, tok) && IsPath(arcs, p) && forall e :: e in arcs ==> At(tok, e.1) <= At(tok, e.0)
    ensures At(own, p[|p| - 1]) <= At(tok, p[0])
    decreases |p|
  {
    if |p| > 1 {
      assert (p[0], p[0 + 1]) in arcs;
      ClosedAlong(own, tok, arcs, p[1..]);
    }
  }

  /** A pass that changes nothing has found the closure. */
  lemma UnchangedIsExact(own: Tokens, tok: Tokens, calls: Calls, ordered: seq<string>)
    requires Grows(own, tok) && Sound(own, CallArcs(own.Keys, calls), tok) && (forall v :: v in own ==> v in ordered)
    requires PassOf(tok, calls, ordered) == tok
    ensures Exact(own, CallArcs(own.Keys, calls), tok)
  {
    forall e | e in CallArcs(own.Keys, calls) ensures At(tok, e.1) <= At(tok, e.0) {
      PassCovers(tok, calls, ordered, e.0, e.1);
    }
    ClosedIsExact(own, tok, calls);
  }

  ghost predicate CalleesFirst(calls: Calls, ordered: seq<string>) {
    forall i, w :: 0 <= i < |ordered| && w in Callees(calls, ordered[i]) ==> w in ordered[..i]
  }

  /** With every callee before its callers one pass finds the closure. */
  lemma OnePassIsExact(own: Tokens, calls: Calls, ordered: seq<string>)
    requires Distinct(ordered) && CalleesFirst(calls, ordered) && (forall v :: v in own ==> v in ordered)
    ensures Exact(own, CallArcs(own.Keys, calls), PassOf(own, calls, ordered))
  {
    var arcs, tok := CallArcs(own.Keys, calls), PassOf(own, calls, ordered);
    PassGrows(own, calls, ordered);
    InitiallySound(own, arcs);
    PassSound(own, own, calls, ordered);
    forall e | e in arcs ensures At(tok, e.1) <= At(tok, e.0) {
      var i :| 0 <= i < |ordered| && ordered[i] == e.0;
      PassInOrder(own, calls, ordered, i, e.1);
    }
    ClosedIsExact(own, tok, calls);
  }

  lemma InitiallySound(own: Tokens, arcs: Arcs)
    ensures Sound(own, arcs, own) && Covered(own, arcs, own, 0)
  {
    forall v, t | v in own && t in own[v] ensures Comes(own, arcs, v, t) { ReachSelf(arcs, v); }
  }

  // ----- The passes themselves -----

  lemma TokensJoin(a: set<string>, ca: bool, b: set<string>, cb: bool)
    ensures TokensOf(a, ca) + TokensOf(b, cb) == TokensOf(a + b, ca && cb)
    ensures TokensOf(a, ca) + {Incomplete} == TokensOf(a, false)
    ensures TokensOf(a, ca) == TokensOf(b, cb) <==> a == b && ca == cb
  {
    if TokensOf(a, ca) == TokensOf(b, cb) {
      forall e ensures e in a <==> e in b {
        assert e in a <==> Needs(e) in TokensOf(a, ca);
        assert e in b <==> Needs(e) in TokensOf(b, cb);
      }
      assert ca <==> Incomplete !in TokensOf(a, ca);
    }
  }

  /** Same map, same view, and the other way round. */
  lemma ViewIsFaithful(a: Effects, ca: Completeness, b: Effects, cb: Completeness)
    requires a.Keys == ca.Keys == b.Keys == cb.Keys
    ensures View(a, ca) == View(b, cb) <==> a == b && ca == cb
  {
    if View(a, ca) == View(b, cb) {
      forall v | v in a ensures a[v] == b[v] && ca[v] == cb[v] {
        assert View(a, ca)[v] == View(b, cb)[v];
        TokensJoin(a[v], ca[v], b[v], cb[v]);
      }
    }
  }

  /** Adding what one target needs, seen as tokens. */
  lemma MergeView(effects: Effects, complete: Completeness, name: string, target: string)
    requires effects.Keys == complete.Keys && name in effects
    ensures var tok := View(effects, complete);
      View(effects[name := effects[name] + NeedsOf(effects, target)], complete[name := complete[name] && IsComplete(complete, target)]) ==
        tok[name := tok[name] + At(tok, target)]
  {
    if target in effects {
      TokensJoin(effects[name], complete[name], effects[target], complete[target]);
    } else {
      assert effects[name] + {} == effects[name];
      TokensJoin(effects[name], complete[name], {}, false);
    }
  }

  /** Gathering in place: what the flow itself has already gathered adds nothing. */
  lemma GatherStep(before: Tokens, name: string, ws: seq<string>, w: string)
    requires name in before
    ensures var tok := Visited(before, name, ws); tok[name := tok[name] + At(tok, w)] == Visited(before, name, ws + [w])
  {
    assert (ws + [w])[..|ws|] == ws;
    var tok := before[name := before[name] + Gather(before, ws)];
    assert tok[name] + At(tok, w) == before[name] + Gather(before, ws + [w]);
  }

  function NeedsOf(effects: Effects, target: string): set<string> {
    if target in effects then effects[target] else {}
  }

  predicate IsComplete(complete: Completeness, target: string) {
    target in complete && complete[target]
  }

  /** Add to one flow what one callee needs. */
  method VisitTarget(name: string, target: string, effects0: Effects, complete0: Completeness)
    returns (effects: Effects, complete: Completeness, changed: bool)
    requires effects0.Keys == complete0.Keys && name in effects0
    ensures effects == effects0[name := effects0[name] + NeedsOf(effects0, target)]
    ensures complete == complete0[name := complete0[name] && IsComplete(complete0, target)]
    ensures changed <==> effects != effects0 || complete != complete0
  {
    effects, complete, changed := effects0, complete0, false;
    if target !in effects || !complete[target] {
      if complete[name] {
        complete := complete[name := false];
        changed := true;
      }
    }
    if target in effects && !(effects[target] <= effects[name]) {
      effects := effects[name := effects[name] + effects[target]];
      changed := true;
    } else {
      assert effects[name] + NeedsOf(effects, target) == effects[name];
    }
  }

  /** Add to one flow what its callees need. */
  method VisitFlow(name: string, targets: seq<string>, effects0: Effects, complete0: Completeness)
    returns (effects: Effects, complete: Completeness, changed: bool)
    requires effects0.Keys == complete0.Keys && name in effects0
    ensures View(effects, complete) == Visited(View(effects0, complete0), name, targets)
    ensures OnlyMore(effects0, complete0, effects, complete)
    ensures changed <==> effects != effects0 || complete != complete0
  {
    effects, complete, changed := effects0, complete0, false;
    ghost var before := View(effects0, complete0);
    assert before[name] + {} == before[name];
    for k := 0 to |targets|
      invariant OnlyMore(effects0, complete0, effects, complete)
      invariant View(effects, complete) == Visited(before, name, targets[..k])
      invariant changed <==> effects != effects0 || complete != complete0
    {
      assert targets[..k + 1] == targets[..k] + [targets[k]];
      TargetStep(before, name, targets[..k], targets[k], effects, complete);
      var effects', complete', more := VisitTarget(name, targets[k], effects, complete);
      MoreIsMore(effects0, complete0, effects, complete, effects', complete');
      effects, complete, changed := effects', complete', changed || more;
    }
    assert targets[..|targets|] == targets;
  }

  lemma TargetStep(before: Tokens, name: string, ws: seq<string>, w: string, effects: Effects, complete: Completeness)
    requires effects.Keys == complete.Keys && name in effects && name in before
    requires View(effects, complete) == Visited(before, name, ws)
    ensures var effects', complete' := effects[name := effects[name] + NeedsOf(effects, w)], complete[name := complete[name] && IsComplete(complete, w)];
      View(effects', complete') == Visited(before, name, ws + [w]) && OnlyMore(effects, complete, effects', complete')
  {
    GatherStep(before, name, ws, w);
    MergeView(effects, complete, name, w);
  }

  lemma MoreIsMore(a: Effects, ca: Completeness, b: Effects, cb: Completeness, c: Effects, cc: Completeness)
    requires OnlyMore(a, ca, b, cb) && OnlyMore(b, cb, c, cc)
    ensures OnlyMore(a, ca, c, cc)
    ensures b != a || cb != ca || c != b || cc != cb <==> c != a || cc != ca
  {
    if c == a && cc == ca {
      forall v | v in a ensures a[v] == b[v] && ca[v] == cb[v] {}
    }
  }

  ghost predicate OnlyMore(effects0: Effects, complete0: Completeness, effects: Effects, complete: Completeness) {
    && effects.Keys == complete.Keys == effects0.Keys == complete0.Keys
    && forall v :: v in effects0 ==> effects0[v] <= effects[v] && (complete[v] ==> complete0[v])
  }

  method Pass(ordered: seq<string>, calls: Calls, effects0: Effects, complete0: Completeness)
    returns (effects: Effects, complete: Completeness, changed: bool)
    requires effects0.Keys == complete0.Keys
    ensures effects.Keys == complete.Keys == effects0.Keys
    ensures View(effects, complete) == PassOf(View(effects0, complete0), calls, ordered)
    ensures changed <==> effects != effects0 || complete != complete0
  {
    effects, complete, changed := effects0, complete0, false;
    ghost var before := View(effects0, complete0);
    for i := 0 to |ordered|
      invariant OnlyMore(effects0, complete0, effects, complete)
      invariant View(effects, complete) == PassOf(before, calls, ordered[..i])
      invariant changed <==> effects != effects0 || complete != complete0
    {
      var name := ordered[i];
      ghost var done := ordered[..i + 1];
      assert done[..|done| - 1] == ordered[..i] && done[|done| - 1] == name;
      assert View(effects, complete).Keys == effects.Keys;
      assert PassOf(before, calls, done) == Visit(View(effects, complete), calls, name);
      if name !in effects { continue; }
      var effects', complete', more := VisitFlow(name, Callees(calls, name), effects, complete);
      MoreIsMore(effects0, complete0, effects, complete, effects', complete');
      effects, complete, changed := effects', complete', changed || more;
    }
    assert ordered[..|ordered|] == ordered;
  }

  /** Each flow's effects are those of all flows it reaches, and it is complete exactly when they all are. */
  ghost predicate IsClosure(flows: set<string>, calls: Calls, direct: Effects, known: Completeness, effects: Effects, complete: Completeness) {
    && effects.Keys == complete.Keys == flows
    && (forall v, e :: v in flows ==>
          (e in effects[v] <==> exists u :: Reach(CallArcs(flows, calls), v, u) && u in direct && e in direct[u]))
    && (forall v :: v in flows ==>
          (complete[v] <==> forall u :: Reach(CallArcs(flows, calls), v, u) ==> u in known && known[u]))
  }

  lemma ExactIsClosure(calls: Calls, direct: Effects, known: Completeness, effects: Effects, complete: Completeness)
    requires direct.Keys == known.Keys == effects.Keys == complete.Keys
    requires Exact(View(direct, known), CallArcs(direct.Keys, calls), View(effects, complete))
    ensures IsClosure(direct.Keys, calls, direct, known, effects, complete)
  {
    var own, arcs, tok := View(direct, known), CallArcs(direct.Keys, calls), View(effects, complete);
    forall v, e | v in direct
      ensures e in effects[v] <==> exists u :: Reach(arcs, v, u) && u in direct && e in direct[u]
    {
      assert Needs(e) in tok[v] <==> e in effects[v];
      assert forall u :: Needs(e) in At(own, u) <==> u in direct && e in direct[u];
      assert Needs(e) in tok[v] <==> Comes(own, arcs, v, Needs(e));
    }
    forall v | v in direct ensures complete[v] <==> forall u :: Reach(arcs, v, u) ==> u in known && known[u] {
      assert Incomplete in tok[v] <==> !complete[v];
      assert forall u :: Incomplete in At(own, u) <==> !(u in known && known[u]);
      assert Incomplete in tok[v] <==> Comes(own, arcs, v, Incomplete);
    }
  }

  /** The state of the closure after some passes. */
  ghost predicate AfterPasses(own: Tokens, calls: Calls, tok: Tokens, pass: int) {
    forall key {:trigger Unlock(key)} :: Unlock(key) ==>
      && Grows(own, tok) && Sound(own, CallArcs(own.Keys, calls), tok)
      && Covered(own, CallArcs(own.Keys, calls), tok, pass)
  }

  lemma NoPassYet(own: Tokens, calls: Calls)
    ensures AfterPasses(own, calls, own, 0)
  {
    InitiallySound(own, CallArcs(own.Keys, calls));
  }

  lemma NextPass(own: Tokens, calls: Calls, ordered: seq<string>, tok: Tokens, pass: nat)
    requires AfterPasses(own, calls, tok, pass) && forall v :: v in own ==> v in ordered
    ensures AfterPasses(own, calls, PassOf(tok, calls, ordered), pass + 1)
  {
    assert Unlock(true);
    PassGrows(tok, calls, ordered);
    PassSound(own, tok, calls, ordered);
    PassReachesFurther(own, tok, calls, ordered, pass);
  }

  /** After as many passes as there are nodes, less one, another pass changes nothing. */
  lemma LatePassIsQuiet(own: Tokens, calls: Calls, ordered: seq<string>, tok: Tokens, pass: nat)
    requires AfterPasses(own, calls, tok, pass) && pass + 1 >= |ordered|
    requires forall v :: v in own ==> v in ordered
    requires forall e :: e in CallArcs(own.Keys, calls) ==> e.1 in ordered
    ensures PassOf(tok, calls, ordered) == tok
  {
    assert Unlock(true);
    NodesCounted(ordered);
    CoveredIsExact(own, tok, calls, Members(ordered));
    ExactStays(own, tok, calls, ordered);
  }

  lemma QuietPassIsClosure(calls: Calls, ordered: seq<string>, direct: Effects, known: Completeness, effects: Effects, complete: Completeness, pass: int)
    requires direct.Keys == known.Keys == effects.Keys == complete.Keys && forall v :: v in direct ==> v in ordered
    requires AfterPasses(View(direct, known), calls, View(effects, complete), pass)
    requires PassOf(View(effects, complete), calls, ordered) == View(effects, complete)
    ensures IsClosure(direct.Keys, calls, direct, known, effects, complete)
  {
    assert Unlock(true);
    assert View(direct, known).Keys == direct.Keys;
    UnchangedIsExact(View(direct, known), View(effects, complete), calls, ordered);
    ExactIsClosure(calls, direct, known, effects, complete);
  }

  lemma FirstPassIsClosure(calls: Calls, ordered: seq<string>, direct: Effects, known: Completeness, effects: Effects, complete: Completeness)
    requires direct.Keys == known.Keys == effects.Keys == complete.Keys && forall v :: v in direct ==> v in ordered
    requires Distinct(ordered) && CalleesFirst(calls, ordered)
    requires View(effects, complete) == PassOf(View(direct, known), calls, ordered)
    ensures IsClosure(direct.Keys, calls, direct, known, effects, complete)
  {
    assert View(direct, known).Keys == direct.Keys;
    OnePassIsExact(View(direct, known), calls, ordered);
    ExactIsClosure(calls, direct, known, effects, complete);
  }

  /** `ordered` lists the nodes of the call graph, callees first when the graph has no cycle. */
  method CloseEffects(direct: Effects, known: Completeness, calls: Calls, ordered: seq<string>, hasCycle: bool)
    returns (effects: Effects, complete: Completeness, settled: bool)
    requires direct.Keys == known.Keys && Distinct(ordered)
    requires forall v :: v in direct ==> v in ordered
    requires forall e :: e in CallArcs(direct.Keys, calls) ==> e.1 in ordered
    requires !hasCycle ==> CalleesFirst(calls, ordered)
    ensures settled && IsClosure(direct.Keys, calls, direct, known, effects, complete)
  {
    effects, complete, settled := direct, known, false;
    ghost var own := View(direct, known);
    NoPassYet(own, calls);
    var maxPasses := if hasCycle then |ordered| + 1 else 1;
    var pass := 0;
    while pass < maxPasses
      invariant effects.Keys == complete.Keys == direct.Keys && !settled && pass < maxPasses
      invariant AfterPasses(own, calls, View(effects, complete), pass)
      invariant pass == 0 ==> effects == direct && complete == known
      decreases maxPasses - pass
    {
      ghost var tok := View(effects, complete);
      NextPass(own, calls, ordered, tok, pass);
      if pass + 1 >= |ordered| { LatePassIsQuiet(own, calls, ordered, tok, pass); }
      var effects', complete', changed := Pass(ordered, calls, effects, complete);
      ViewIsFaithful(effects, complete, effects', complete');
      effects, complete := effects', complete';
      if !changed {
        settled := true;
        QuietPassIsClosure(calls, ordered, direct, known, effects, complete, pass);
        break;
      }
      if !hasCycle {
        settled := true;
        FirstPassIsClosure(calls, ordered, direct, known, effects, complete);
        break;
      }
      pass := pass + 1;
    }
  }

  lemma {:induction false} NodesCounted(s: seq<string>)
    ensures |Members(s)| <= |s|
  {
    if s != [] {
      var k := |s| - 1;
      NodesCounted(s[..k]);
      assert Members(s) == Members(s[..k]) + {s[k]};
    }
  }
}
