/** Drawing a pattern as a circuit (`gate-from-pattern.ts`, from the parsed pattern on): counting the
    parts first, emitting them, and the proof that the circuit accepts what the pattern matches. */
module PatternCircuit {
  import opened Options
  import opened DigitText
  import opened GateGraph

  datatype Atom = Literal(ch: char) | Class(name: string)

  datatype Pattern = One(atom: Atom) | Sequence(items: seq<Pattern>) | Repeat(item: Pattern, times: nat)

  /** Which characters a named class holds is given from outside. */
  type Classes = (string, char) -> bool

  predicate Accepts(classes: Classes, a: Atom, ch: char) {
    match a
    case Literal(c) => c == ch
    case Class(name) => classes(name, ch)
  }

  // ----- What a pattern matches -----

  ghost predicate Matches(classes: Classes, p: Pattern, s: string)
    decreases p, 0
  {
    match p
    case One(Literal(ch)) => s == [ch]
    case One(Class(name)) => |s| == 1 && classes(name, s[0])
    case Sequence(items) => MatchesAll(classes, items, s)
    case Repeat(item, times) => MatchesTimes(classes, item, times, s)
  }

  ghost predicate MatchesAll(classes: Classes, items: seq<Pattern>, s: string)
    decreases items, 0
  {
    if items == [] then s == []
    else exists k :: 0 <= k <= |s| && Matches(classes, items[0], s[..k]) && MatchesAll(classes, items[1..], s[k..])
  }

  ghost predicate MatchesTimes(classes: Classes, item: Pattern, times: nat, s: string)
    decreases item, times
  {
    if times == 0 then s == []
    else exists k :: 0 <= k <= |s| && Matches(classes, item, s[..k]) && MatchesTimes(classes, item, times - 1, s[k..])
  }

  // ----- A pattern as a row of atoms -----

  function Expand(p: Pattern): seq<Atom>
    decreases p, 0
  {
    match p
    case One(a) => [a]
    case Sequence(items) => ExpandAll(items)
    case Repeat(item, times) => ExpandTimes(item, times)
  }

  function ExpandAll(items: seq<Pattern>): seq<Atom>
    decreases items, 0
  {
    if items == [] then [] else Expand(items[0]) + ExpandAll(items[1..])
  }

  function ExpandTimes(item: Pattern, times: nat): seq<Atom>
    decreases item, times
  {
    if times == 0 then [] else Expand(item) + ExpandTimes(item, times - 1)
  }

  ghost predicate RowMatches(classes: Classes, row: seq<Atom>, s: string) {
    |s| == |row| && forall i :: 0 <= i < |row| ==> Accepts(classes, row[i], s[i])
  }

  lemma RowSplits(classes: Classes, a: seq<Atom>, b: seq<Atom>, s: string)
    ensures RowMatches(classes, a + b, s) <==> |a| <= |s| && RowMatches(classes, a, s[..|a|]) && RowMatches(classes, b, s[|a|..])
  {
    if |a| <= |s| && RowMatches(classes, a, s[..|a|]) && RowMatches(classes, b, s[|a|..]) {
      forall i | 0 <= i < |a + b| ensures Accepts(classes, (a + b)[i], s[i]) {
        if i < |a| { assert s[..|a|][i] == s[i]; } else { assert s[|a|..][i - |a|] == s[i]; }
      }
    }
    if RowMatches(classes, a + b, s) {
      forall i | 0 <= i < |b| ensures Accepts(classes, b[i], s[|a|..][i]) { assert (a + b)[|a| + i] == b[i]; }
      forall i | 0 <= i < |a| ensures Accepts(classes, a[i], s[..|a|][i]) { assert (a + b)[i] == a[i]; }
    }
  }

  /** A pattern matches exactly what its row of atoms matches, character by character. */
  lemma {:induction false} MatchIsRow(classes: Classes, p: Pattern, s: string)
    ensures Matches(classes, p, s) <==> RowMatches(classes, Expand(p), s)
    decreases p, 1, 0
  {
    match p
    case One(_) =>
    case Sequence(items) => AllIsRow(classes, items, s);
    case Repeat(item, times) => TimesIsRow(classes, item, times, s);
  }

  lemma {:induction false} AllIsRow(classes: Classes, items: seq<Pattern>, s: string)
    ensures MatchesAll(classes, items, s) <==> RowMatches(classes, ExpandAll(items), s)
    decreases items, 0, 0
  {
    if items != [] {
      var a, b := Expand(items[0]), ExpandAll(items[1..]);
      RowSplits(classes, a, b, s);
      forall k | 0 <= k <= |s|
        ensures Matches(classes, items[0], s[..k]) && MatchesAll(classes, items[1..], s[k..]) <==>
          k == |a| && RowMatches(classes, a, s[..k]) && RowMatches(classes, b, s[k..])
      {
        MatchIsRow(classes, items[0], s[..k]);
        AllIsRow(classes, items[1..], s[k..]);
      }
    }
  }

  lemma {:induction false} TimesIsRow(classes: Classes, item: Pattern, times: nat, s: string)
    ensures MatchesTimes(classes, item, times, s) <==> RowMatches(classes, ExpandTimes(item, times), s)
    decreases item, 2, times
  {
    if times > 0 {
      var a, b := Expand(item), ExpandTimes(item, times - 1);
      RowSplits(classes, a, b, s);
      forall k | 0 <= k <= |s|
        ensures Matches(classes, item, s[..k]) && MatchesTimes(classes, item, times - 1, s[k..]) <==>
          k == |a| && RowMatches(classes, a, s[..k]) && RowMatches(classes, b, s[k..])
      {
        MatchIsRow(classes, item, s[..k]);
        TimesIsRow(classes, item, times - 1, s[k..]);
      }
    }
  }

  // ----- Counting before expanding -----

  function CountParts(p: Pattern): nat {
    match p
    case One(_) => 1
    case Sequence(items) => CountAll(items)
    case Repeat(item, times) => times * CountParts(item)
  }

  function CountAll(items: seq<Pattern>): nat {
    if items == [] then 0 else CountParts(items[0]) + CountAll(items[1..])
  }

  /** The count foretells the length of the row. */
  lemma {:induction false} CountIsLength(p: Pattern)
    ensures CountParts(p) == |Expand(p)|
    decreases p, 1, 0
  {
    match p
    case One(_) =>
    case Sequence(items) => CountAllIsLength(items);
    case Repeat(item, times) => CountTimesIsLength(item, times);
  }

  lemma {:induction false} CountAllIsLength(items: seq<Pattern>)
    ensures CountAll(items) == |ExpandAll(items)|
    decreases items, 0, 0
  {
    if items != [] {
      CountIsLength(items[0]);
      CountAllIsLength(items[1..]);
    }
  }

  lemma {:induction false} CountTimesIsLength(item: Pattern, times: nat)
    ensures times * CountParts(item) == |ExpandTimes(item, times)|
    decreases item, 2, times
  {
    CountIsLength(item);
    if times > 0 { CountTimesIsLength(item, times - 1); }
  }

  // ----- The circuit -----

  datatype Decl = Classifier(atom: Atom) | Boundary

  datatype CircuitPart = CircuitPart(name: string, decl: Decl)

  datatype Wire = Wire(from: Endpoint, to: Endpoint)

  datatype Circuit = Circuit(parts: seq<CircuitPart>, wires: seq<Wire>, reasons: seq<string>)

  function PartName(i: nat): string {
    "p" + NatName(i)
  }

  function Reason(i: nat): string {
    "no_match_at_" + NatName(i)
  }

  lemma PartNames(m: nat, n: nat)
    ensures PartName(m) == PartName(n) ==> m == n
    ensures PartName(m) != "end" && PartName(m) != "OUT" && PartName(m) != "DENY" && PartName(m) != "IN"
  {
    if PartName(m) == PartName(n) {
      assert PartName(m)[1..] == NatName(m) && PartName(n)[1..] == NatName(n);
      NatNameInjective(m, n);
    }
    assert PartName(m)[0] == 'p';
  }

  lemma Reasons(m: nat, n: nat)
    ensures Reason(m) == Reason(n) ==> m == n
    ensures Reason(m) != "trailing_input"
  {
    if Reason(m) == Reason(n) {
      assert Reason(m)[12..] == NatName(m) && Reason(n)[12..] == NatName(n);
      NatNameInjective(m, n);
    }
    assert Reason(m)[0] == 'n';
  }

  const START: Endpoint := Endpoint("IN", "raw")

  /** What feeds the `j`-th classifier. */
  function Feed(entry: Endpoint, base: nat, j: nat): Endpoint {
    if j == 0 then entry else Endpoint(PartName(base + j - 1), "match")
  }

  function InWire(entry: Endpoint, base: nat, j: nat): Wire {
    Wire(Feed(entry, base, j), Endpoint(PartName(base + j), "subject"))
  }

  function NoWire(base: nat, j: nat): Wire {
    Wire(Endpoint(PartName(base + j), "no"), Endpoint("DENY", Reason(base + j)))
  }

  /** The drawing of a row whose classifiers are numbered from `base`. */
  function RowParts(row: seq<Atom>, base: nat): seq<CircuitPart> {
    seq(|row|, j requires 0 <= j < |row| => CircuitPart(PartName(base + j), Classifier(row[j])))
  }

  function RowWires(entry: Endpoint, base: nat, n: nat): seq<Wire> {
    seq(2 * n, j requires 0 <= j < 2 * n => if j % 2 == 0 then InWire(entry, base, j / 2) else NoWire(base, j / 2))
  }

  function RowReasons(base: nat, n: nat): seq<string> {
    seq(n, j requires 0 <= j < n => Reason(base + j))
  }

  lemma RowsJoin(entry: Endpoint, base: nat, a: seq<Atom>, b: seq<Atom>)
    ensures RowParts(a + b, base) == RowParts(a, base) + RowParts(b, base + |a|)
    ensures RowWires(entry, base, |a| + |b|) == RowWires(entry, base, |a|) + RowWires(Feed(entry, base, |a|), base + |a|, |b|)
    ensures RowReasons(base, |a| + |b|) == RowReasons(base, |a|) + RowReasons(base + |a|, |b|)
    ensures Feed(Feed(entry, base, |a|), base + |a|, |b|) == Feed(entry, base, |a| + |b|)
  {
    var left, right := RowWires(entry, base, |a|), RowWires(Feed(entry, base, |a|), base + |a|, |b|);
    forall j | 0 <= j < 2 * (|a| + |b|) ensures RowWires(entry, base, |a| + |b|)[j] == (left + right)[j] {
      if j >= 2 * |a| { assert (j - 2 * |a|) / 2 == j / 2 - |a| && (j - 2 * |a|) % 2 == j % 2; }
    }
  }

  lemma Associates<T>(a: seq<T>, b: seq<T>, c: seq<T>)
    ensures a + b + c == a + (b + c)
  {}

  /** The arrays the emitter appends to. */
  class Emitter {
    var parts: seq<CircuitPart>
    var wires: seq<Wire>
    var reasons: seq<string>
    var next: nat

    constructor ()
      ensures parts == [] && wires == [] && reasons == [] && next == 1
    {
      parts, wires, reasons, next := [], [], [], 1;
    }

    ghost predicate Emitted(row: seq<Atom>, entry: Endpoint, exit: Endpoint, parts0: seq<CircuitPart>, wires0: seq<Wire>, reasons0: seq<string>, next0: nat)
      reads this
    {
      && parts == parts0 + RowParts(row, next0) && wires == wires0 + RowWires(entry, next0, |row|)
      && reasons == reasons0 + RowReasons(next0, |row|)
      && next == next0 + |row| && exit == Feed(entry, next0, |row|)
    }

    /** Emit one node between its single entry and its single exit. */
    method Emit(p: Pattern, entry: Endpoint) returns (exit: Endpoint)
      modifies this
      ensures Emitted(Expand(p), entry, exit, old(parts), old(wires), old(reasons), old(next))
      decreases p, 1
    {
      match p
      case One(a) => exit := EmitOne(a, entry);
      case Sequence(items) => exit := EmitSequence(items, entry);
      case Repeat(item, times) => exit := EmitRepeat(item, times, entry);
    }

    method EmitOne(a: Atom, entry: Endpoint) returns (exit: Endpoint)
      modifies this
      ensures Emitted([a], entry, exit, old(parts), old(wires), old(reasons), old(next))
    {
      var name := PartName(next);
      assert RowWires(entry, next, 1) == [InWire(entry, next, 0), NoWire(next, 0)];
      parts := parts + [CircuitPart(name, Classifier(a))];
      wires := wires + [Wire(entry, Endpoint(name, "subject"))];
      wires := wires + [Wire(Endpoint(name, "no"), Endpoint("DENY", Reason(next)))];
      reasons := reasons + [Reason(next)];
      next := next + 1;
      exit := Endpoint(name, "match");
    }

    method EmitSequence(items: seq<Pattern>, entry: Endpoint) returns (exit: Endpoint)
      modifies this
      ensures Emitted(ExpandAll(items), entry, exit, old(parts), old(wires), old(reasons), old(next))
      decreases items, 0
    {
      exit := entry;
      ghost var start := Snapshot();
      ghost var row: seq<Atom> := [];
      NothingEmitted(entry);
      for i := 0 to |items|
        invariant row == ExpandAll(items[..i]) && EmittedSince(start, row, entry, exit)
      {
        ghost var mid := Snapshot();
        var before := exit;
        exit := Emit(items[i], exit);
        EmitJoins(start, mid, row, Expand(items[i]), entry, before, exit);
        ExpandNext(items, i);
        row := row + Expand(items[i]);
      }
      assert items[..|items|] == items;
    }

    method EmitRepeat(item: Pattern, times: nat, entry: Endpoint) returns (exit: Endpoint)
      modifies this
      ensures Emitted(ExpandTimes(item, times), entry, exit, old(parts), old(wires), old(reasons), old(next))
      decreases item, 2
    {
      exit := entry;
      ghost var start := Snapshot();
      ghost var row: seq<Atom> := [];
      NothingEmitted(entry);
      for i := 0 to times
        invariant row == ExpandTimes(item, i) && EmittedSince(start, row, entry, exit)
      {
        ghost var mid := Snapshot();
        var before := exit;
        exit := Emit(item, exit);
        EmitJoins(start, mid, row, Expand(item), entry, before, exit);
        ExpandOnceMore(item, i);
        row := row + Expand(item);
      }
    }

    ghost function Snapshot(): (seq<CircuitPart>, seq<Wire>, seq<string>, nat)
      reads this
    {
      (parts, wires, reasons, next)
    }

    ghost predicate EmittedSince(start: (seq<CircuitPart>, seq<Wire>, seq<string>, nat), row: seq<Atom>, entry: Endpoint, exit: Endpoint)
      reads this
    {
      Emitted(row, entry, exit, start.0, start.1, start.2, start.3)
    }

    lemma NothingEmitted(entry: Endpoint)
      ensures EmittedSince(Snapshot(), [], entry, entry)
    {}

    /** Emitting one row after another emits the two joined. */
    lemma EmitJoins(start: (seq<CircuitPart>, seq<Wire>, seq<string>, nat), mid: (seq<CircuitPart>, seq<Wire>, seq<string>, nat),
                    a: seq<Atom>, b: seq<Atom>, entry: Endpoint, before: Endpoint, exit: Endpoint)
      requires mid == (start.0 + RowParts(a, start.3), start.1 + RowWires(entry, start.3, |a|), start.2 + RowReasons(start.3, |a|), start.3 + |a|)
      requires before == Feed(entry, start.3, |a|) && EmittedSince(mid, b, before, exit)
      ensures EmittedSince(start, a + b, entry, exit)
    {
      var n := start.3;
      RowsJoin(entry, n, a, b);
      Associates(start.0, RowParts(a, n), RowParts(b, n + |a|));
      Associates(start.1, RowWires(entry, n, |a|), RowWires(before, n + |a|, |b|));
      Associates(start.2, RowReasons(n, |a|), RowReasons(n + |a|, |b|));
    }
  }

  lemma ExpandNext(items: seq<Pattern>, i: nat)
    requires i < |items|
    ensures ExpandAll(items[..i + 1]) == ExpandAll(items[..i]) + Expand(items[i])
  {
    ExpandAppend(items[..i], items[i]);
    assert items[..i] + [items[i]] == items[..i + 1];
  }

  lemma {:induction false} ExpandAppend(items: seq<Pattern>, p: Pattern)
    ensures ExpandAll(items + [p]) == ExpandAll(items) + Expand(p)
  {
    if items == [] {
      assert [] + [p] == [p] && [p][1..] == [];
      assert ExpandAll([p]) == Expand(p) + [];
    } else {
      ExpandAppend(items[1..], p);
      assert (items + [p])[1..] == items[1..] + [p];
    }
  }

  lemma {:induction false} ExpandOnceMore(item: Pattern, times: nat)
    ensures ExpandTimes(item, times + 1) == ExpandTimes(item, times) + Expand(item)
  {
    if times > 0 {
      ExpandOnceMore(item, times - 1);
      assert ExpandTimes(item, times + 1) == Expand(item) + (ExpandTimes(item, times - 1) + Expand(item));
    } else {
      assert ExpandTimes(item, 0) == [];
      assert ExpandTimes(item, 1) == Expand(item) + [];
    }
  }

  // ----- The whole drawing -----

  const MAX_PARTS: nat := 4096
  const MAX_WIRES: nat := 8192

  function EndWires(exit: Endpoint): seq<Wire> {
    [Wire(exit, Endpoint("end", "subject")), Wire(Endpoint("end", "ok"), Endpoint("OUT", "value")),
     Wire(Endpoint("end", "more"), Endpoint("DENY", "trailing_input"))]
  }

  /** The circuit of a row: its classifiers from 1 on, then the boundary. */
  function Drawing(row: seq<Atom>): Circuit {
    Circuit(RowParts(row, 1) + [CircuitPart("end", Boundary)],
            RowWires(START, 1, |row|) + EndWires(Feed(START, 1, |row|)),
            RowReasons(1, |row|) + ["trailing_input"])
  }

  // ----- Shape of the drawing -----

  /** The endpoints of the drawing's wires are pairwise different: where they enter, ... */
  lemma TargetsDistinct(row: seq<Atom>, i: nat, j: nat)
    requires i < j < |Drawing(row).wires|
    ensures Drawing(row).wires[i].to != Drawing(row).wires[j].to
  {
    WireShape(row, i);
    WireShape(row, j);
    PartNames(1 + i / 2, 1 + j / 2);
    Reasons(1 + i / 2, 1 + j / 2);
  }

  /** ... and where they leave. */
  lemma SourcesDistinct(row: seq<Atom>, i: nat, j: nat)
    requires i < j < |Drawing(row).wires|
    ensures Drawing(row).wires[i].from != Drawing(row).wires[j].from
  {
    WireShape(row, i);
    WireShape(row, j);
    PartNames(1 + i / 2, 1 + j / 2);
    if i / 2 >= 1 {
      PartNames(i / 2, j / 2);
      PartNames(i / 2, |row|);
    }
  }

  lemma WireShape(row: seq<Atom>, j: nat)
    requires j < |Drawing(row).wires|
    ensures var n, w := |row|, Drawing(row).wires[j];
      if j < 2 * n then w == (if j % 2 == 0 then InWire(START, 1, j / 2) else NoWire(1, j / 2))
      else w == EndWires(Feed(START, 1, n))[j - 2 * n]
  {}

  /** The refusal reasons are pairwise different. */
  lemma ReasonsDistinct(row: seq<Atom>, i: nat, j: nat)
    requires i < j < |Drawing(row).reasons|
    ensures Drawing(row).reasons[i] != Drawing(row).reasons[j]
  {
    Reasons(1 + i, 1 + j);
  }

  /** The reasons of the wires that end at DENY, in wire order. */
  ghost function DenyPorts(wires: seq<Wire>): seq<string> {
    if wires == [] then []
    else
      var last := wires[|wires| - 1];
      DenyPorts(wires[..|wires| - 1]) + if last.to.node == "DENY" then [last.to.port] else []
  }

  lemma DenyPortsLast(before: seq<Wire>, w: Wire)
    ensures DenyPorts(before + [w]) == DenyPorts(before) + if w.to.node == "DENY" then [w.to.port] else []
  {
    assert (before + [w])[..|before|] == before;
  }

  lemma OneRowMore(n: nat)
    ensures RowWires(START, 1, n + 1) == RowWires(START, 1, n) + [InWire(START, 1, n)] + [NoWire(1, n)]
    ensures RowReasons(1, n + 1) == RowReasons(1, n) + [Reason(1 + n)]
  {}

  lemma {:induction false} RowDenies(n: nat)
    ensures DenyPorts(RowWires(START, 1, n)) == RowReasons(1, n)
  {
    if n > 0 {
      var before, a, b := RowWires(START, 1, n - 1), InWire(START, 1, n - 1), NoWire(1, n - 1);
      RowDenies(n - 1);
      OneRowMore(n - 1);
      PartNames(n, n);
      DenyPortsLast(before, a);
      DenyPortsLast(before + [a], b);
    }
  }

  /** The reasons handed on are those the wires name. */
  lemma ReasonsAreDenied(row: seq<Atom>)
    ensures DenyPorts(Drawing(row).wires) == Drawing(row).reasons
  {
    var wires, ends := RowWires(START, 1, |row|), EndWires(Feed(START, 1, |row|));
    RowDenies(|row|);
    DenyPortsLast(wires, ends[0]);
    DenyPortsLast(wires + [ends[0]], ends[1]);
    DenyPortsLast(wires + [ends[0]] + [ends[1]], ends[2]);
    assert wires + ends == wires + [ends[0]] + [ends[1]] + [ends[2]];
  }

  /** The name of the `i`-th classifier, counted from one. */
  ghost predicate IsClassifier(name: string, i: nat) {
    exists d :: IsDecimal(d, i) && name == "p" + d
  }

  ghost predicate IsRefusal(port: string, i: nat) {
    exists d :: IsDecimal(d, i) && port == "no_match_at_" + d
  }

  lemma NamesAre(i: nat)
    ensures IsClassifier(PartName(i), i) && IsRefusal(Reason(i), i)
  {
    NatNameIsDecimal(i);
  }

  /** The parts are the row's atoms, `p1` and on, and `end`. */
  lemma PartsAre(row: seq<Atom>)
    ensures var parts := Drawing(row).parts;
      && |parts| == |row| + 1 && parts[|row|] == CircuitPart("end", Boundary)
      && forall i :: 0 <= i < |row| ==> IsClassifier(parts[i].name, i + 1) && parts[i].decl == Classifier(row[i])
  {
    forall i | 0 <= i < |row| ensures IsClassifier(Drawing(row).parts[i].name, i + 1) { NamesAre(i + 1); }
  }

  /** From IN the value goes through the classifiers, into `subject` and out of `match`, ... */
  lemma ClassifierWires(row: seq<Atom>, i: nat)
    requires i < |row|
    ensures var wires := Drawing(row).wires;
      && |wires| == 2 * |row| + 3 && wires[0].from == Endpoint("IN", "raw")
      && wires[2 * i].to.port == "subject" && IsClassifier(wires[2 * i].to.node, i + 1)
      && wires[2 * i + 1].from == Endpoint(wires[2 * i].to.node, "no")
      && wires[2 * i + 1].to.node == "DENY" && IsRefusal(wires[2 * i + 1].to.port, i + 1)
      && wires[2 * i + 2].from == Endpoint(wires[2 * i].to.node, "match")
  {
    RowWiresAt(row, i);
    RowWireNames(i);
    NextFeed(row, 0);
    NextFeed(row, i + 1);
  }

  lemma RowWiresAt(row: seq<Atom>, i: nat)
    requires i < |row|
    ensures Drawing(row).wires[2 * i] == InWire(START, 1, i) && Drawing(row).wires[2 * i + 1] == NoWire(1, i)
  {
    WireShape(row, 2 * i);
    WireShape(row, 2 * i + 1);
  }

  lemma RowWireNames(i: nat)
    ensures var a, b := InWire(START, 1, i), NoWire(1, i);
      && a.to.port == "subject" && IsClassifier(a.to.node, i + 1)
      && b.from == Endpoint(a.to.node, "no") && b.to.node == "DENY" && IsRefusal(b.to.port, i + 1)
      && Feed(START, 1, i + 1) == Endpoint(a.to.node, "match")
  {
    NamesAre(i + 1);
  }

  lemma NextFeed(row: seq<Atom>, i: nat)
    requires i <= |row|
    ensures Drawing(row).wires[2 * i].from == Feed(START, 1, i)
  {
    WireShape(row, 2 * i);
  }

  /** ... and at last into the boundary and from there to OUT; what is left over goes to DENY. */
  lemma BoundaryWires(row: seq<Atom>)
    ensures var n, wires := |row|, Drawing(row).wires;
      && wires[2 * n].to == Endpoint("end", "subject")
      && wires[2 * n + 1] == Wire(Endpoint("end", "ok"), Endpoint("OUT", "value"))
      && wires[2 * n + 2] == Wire(Endpoint("end", "more"), Endpoint("DENY", "trailing_input"))
  {
    WireShape(row, 2 * |row|);
    WireShape(row, 2 * |row| + 1);
    WireShape(row, 2 * |row| + 2);
  }

  // ----- Running a circuit -----

  datatype Outcome = Accepted | Denied(reason: string) | Stuck

  /** Where the first wire from `from` leads. */
  function Consumer(wires: seq<Wire>, from: Endpoint): Option<Endpoint> {
    if wires == [] then None
    else if wires[0].from == from then Some(wires[0].to)
    else Consumer(wires[1..], from)
  }

  function Declared(parts: seq<CircuitPart>, name: string): Option<Decl> {
    if parts == [] then None
    else if parts[0].name == name then Some(parts[0].decl)
    else Declared(parts[1..], name)
  }

  /** Follow the value leaving `from`: a classifier takes one character off or refuses, the boundary
      demands that nothing is left. */
  function Follow(classes: Classes, c: Circuit, from: Endpoint, text: string, steps: nat): Outcome
    decreases steps
  {
    if steps == 0 then Stuck
    else
      match Consumer(c.wires, from)
      case None => Stuck
      case Some(to) =>
        if to.node == "OUT" then Accepted
        else if to.node == "DENY" then Denied(to.port)
        else
          match Declared(c.parts, to.node)
          case None => Stuck
          case Some(Classifier(a)) =>
            if text != [] && Accepts(classes, a, text[0]) then Follow(classes, c, Endpoint(to.node, "match"), text[1..], steps - 1)
            else Follow(classes, c, Endpoint(to.node, "no"), text, steps - 1)
          case Some(Boundary) =>
            Follow(classes, c, Endpoint(to.node, if text == [] then "ok" else "more"), text, steps - 1)
  }

  lemma {:induction false} ConsumerFound(wires: seq<Wire>, i: nat)
    requires i < |wires| && forall j :: 0 <= j < i ==> wires[j].from != wires[i].from
    ensures Consumer(wires, wires[i].from) == Some(wires[i].to)
  {
    if i > 0 { ConsumerFound(wires[1..], i - 1); }
  }

  lemma {:induction false} DeclaredFound(parts: seq<CircuitPart>, i: nat)
    requires i < |parts| && forall j :: 0 <= j < i ==> parts[j].name != parts[i].name
    ensures Declared(parts, parts[i].name) == Some(parts[i].decl)
  {
    if i > 0 { DeclaredFound(parts[1..], i - 1); }
  }

  lemma WireLeads(row: seq<Atom>, i: nat)
    requires i < |Drawing(row).wires|
    ensures Consumer(Drawing(row).wires, Drawing(row).wires[i].from) == Some(Drawing(row).wires[i].to)
  {
    forall j: nat | j < i ensures Drawing(row).wires[j].from != Drawing(row).wires[i].from { SourcesDistinct(row, j, i); }
    ConsumerFound(Drawing(row).wires, i);
  }

  lemma PartIs(row: seq<Atom>, j: nat)
    requires j <= |row|
    ensures Declared(Drawing(row).parts, if j < |row| then PartName(1 + j) else "end") ==
      Some(if j < |row| then Classifier(row[j]) else Boundary)
  {
    var parts := Drawing(row).parts;
    forall i | 0 <= i < j ensures parts[i].name != parts[j].name { PartNames(1 + i, 1 + j); }
    DeclaredFound(parts, j);
  }

  /** What a row does with a text: refuse at the first atom that does not accept, then demand the end. */
  function Verdict(classes: Classes, row: seq<Atom>, text: string, base: nat): Outcome {
    if row == [] then (if text == [] then Accepted else Denied("trailing_input"))
    else if text != [] && Accepts(classes, row[0], text[0]) then Verdict(classes, row[1..], text[1..], base + 1)
    else Denied(Reason(base))
  }

  lemma {:induction false} VerdictIsRow(classes: Classes, row: seq<Atom>, text: string, base: nat)
    ensures Verdict(classes, row, text, base) == Accepted <==> RowMatches(classes, row, text)
  {
    if row != [] && text != [] {
      VerdictIsRow(classes, row[1..], text[1..], base + 1);
      RowSplits(classes, row[..1], row[1..], text);
      assert row == row[..1] + row[1..] && text[..1] == [text[0]];
      assert RowMatches(classes, row[..1], text[..1]) <==> Accepts(classes, row[0], text[0]);
    }
  }

  lemma NoWireAt(row: seq<Atom>, j: nat)
    requires j < |row|
    ensures 2 * j + 1 < |Drawing(row).wires| && Drawing(row).wires[2 * j + 1] == NoWire(1, j)
  {
    WireShape(row, 2 * j + 1);
  }

  /** The refusal wire of a classifier. */
  lemma RefusalLeads(row: seq<Atom>, j: nat)
    requires j < |row|
    ensures Consumer(Drawing(row).wires, Endpoint(PartName(1 + j), "no")) == Some(Endpoint("DENY", Reason(1 + j)))
  {
    NoWireAt(row, j);
    WireLeads(row, 2 * j + 1);
  }

  lemma FeedWireAt(row: seq<Atom>, j: nat)
    requires j <= |row|
    ensures 2 * j < |Drawing(row).wires|
    ensures Drawing(row).wires[2 * j] == Wire(Feed(START, 1, j), Endpoint(if j < |row| then PartName(1 + j) else "end", "subject"))
  {
    WireShape(row, 2 * j);
  }

  lemma FeedLeads(row: seq<Atom>, j: nat)
    requires j <= |row|
    ensures Consumer(Drawing(row).wires, Feed(START, 1, j)) ==
      Some(Endpoint(if j < |row| then PartName(1 + j) else "end", "subject"))
  {
    FeedWireAt(row, j);
    WireLeads(row, 2 * j);
  }

  lemma EndLeads(row: seq<Atom>)
    ensures Consumer(Drawing(row).wires, Endpoint("end", "ok")) == Some(Endpoint("OUT", "value"))
    ensures Consumer(Drawing(row).wires, Endpoint("end", "more")) == Some(Endpoint("DENY", "trailing_input"))
  {
    WireLeads(row, 2 * |row| + 1);
    WireLeads(row, 2 * |row| + 2);
  }

  /** From the feed of its `j`-th classifier the drawing does what the rest of the row does. */
  lemma {:induction false} DrawingFollows(classes: Classes, row: seq<Atom>, j: nat, text: string, steps: nat)
    requires j <= |row| && steps >= |row| - j + 2
    ensures Follow(classes, Drawing(row), Feed(START, 1, j), text, steps) == Verdict(classes, row[j..], text, 1 + j)
    decreases |row| - j
  {
    FeedLeads(row, j);
    PartIs(row, j);
    PartNames(1 + j, 1 + j);
    if j == |row| {
      EndLeads(row);
    } else {
      RefusalLeads(row, j);
      if text != [] && Accepts(classes, row[j], text[0]) {
        DrawingFollows(classes, row, j + 1, text[1..], steps - 1);
        assert row[j..][1..] == row[j + 1..];
      }
    }
  }

  /** The circuit drawn for a pattern accepts exactly the inputs the pattern matches, and refuses every
      other input, naming the first position that fails. */
  lemma DrawingMeansPattern(classes: Classes, p: Pattern, text: string, steps: nat)
    requires steps >= CountParts(p) + 2
    ensures var outcome := Follow(classes, Drawing(Expand(p)), START, text, steps);
      && (outcome == Accepted <==> Matches(classes, p, text))
      && outcome == Verdict(classes, Expand(p), text, 1)
  {
    CountIsLength(p);
    DrawingFollows(classes, Expand(p), 0, text, steps);
    assert Expand(p)[0..] == Expand(p);
    VerdictIsRow(classes, Expand(p), text, 1);
    MatchIsRow(classes, p, text);
  }

  // ----- Which refusal -----

  /** The `i`-th atom of the row finds no character or one that it does not take, and the ones before are content. */
  ghost predicate FailsFirstAt(classes: Classes, row: seq<Atom>, text: string, i: int) {
    && 0 <= i < |row| && i <= |text|
    && (forall j :: 0 <= j < i ==> Matches(classes, One(row[j]), [text[j]]))
    && (i < |text| ==> !Matches(classes, One(row[i]), [text[i]]))
  }

  ghost predicate DeniedAt(o: Outcome, position: nat) {
    exists d :: IsDecimal(d, position) && o == Denied("no_match_at_" + d)
  }

  lemma AcceptsIsMatch(classes: Classes, a: Atom, ch: char)
    ensures Accepts(classes, a, ch) <==> Matches(classes, One(a), [ch])
  {}

  lemma FailsLater(classes: Classes, row: seq<Atom>, text: string, i: int)
    requires FailsFirstAt(classes, row, text, i) && i > 0
    ensures text != [] && Matches(classes, One(row[0]), [text[0]]) && FailsFirstAt(classes, row[1..], text[1..], i - 1)
  {
    assert forall j :: 0 <= j < i - 1 ==> row[1..][j] == row[j + 1] && text[1..][j] == text[j + 1];
  }

  lemma {:induction false} VerdictAt(classes: Classes, row: seq<Atom>, text: string, base: nat, i: int)
    requires FailsFirstAt(classes, row, text, i)
    ensures DeniedAt(Verdict(classes, row, text, base), base + i)
  {
    if i == 0 {
      if text != [] { AcceptsIsMatch(classes, row[0], text[0]); }
      NatNameIsDecimal(base);
    } else {
      FailsLater(classes, row, text, i);
      AcceptsIsMatch(classes, row[0], text[0]);
      VerdictAt(classes, row[1..], text[1..], base + 1, i - 1);
    }
  }

  lemma {:induction false} VerdictTrailing(classes: Classes, row: seq<Atom>, text: string, base: nat)
    requires |row| < |text| && forall j :: 0 <= j < |row| ==> Matches(classes, One(row[j]), [text[j]])
    ensures Verdict(classes, row, text, base) == Denied("trailing_input")
  {
    if row != [] {
      AcceptsIsMatch(classes, row[0], text[0]);
      assert forall j :: 0 <= j < |row[1..]| ==> row[1..][j] == row[j + 1] && text[1..][j] == text[j + 1];
      VerdictTrailing(classes, row[1..], text[1..], base + 1);
    }
  }

  /** The circuit refuses naming the first position, counted from one, that finds no character or one it
      does not take; when every position is content and input is left over, it says that. */
  lemma RefusalNamesPosition(classes: Classes, p: Pattern, text: string, steps: nat)
    requires steps >= CountParts(p) + 2
    ensures var row, outcome := Expand(p), Follow(classes, Drawing(Expand(p)), START, text, steps);
      && (forall i: nat :: FailsFirstAt(classes, row, text, i) ==> DeniedAt(outcome, i + 1))
      && (|row| < |text| && (forall j :: 0 <= j < |row| ==> Matches(classes, One(row[j]), [text[j]])) ==> outcome == Denied("trailing_input"))
  {
    var row := Expand(p);
    DrawingMeansPattern(classes, p, text, steps);
    forall i: nat | FailsFirstAt(classes, row, text, i) ensures DeniedAt(Verdict(classes, row, text, 1), i + 1) {
      VerdictAt(classes, row, text, 1, i);
    }
    if |row| < |text| && forall j :: 0 <= j < |row| ==> Matches(classes, One(row[j]), [text[j]]) {
      VerdictTrailing(classes, row, text, 1);
    }
  }
}
