/** The generated source text (`gate-from-pattern.ts`, generateCircuitFromPattern): the drawing written
    out line by line, and the four refusals, the last of them on the size of the file. */
module CircuitText {
  import opened DigitText
  import opened GateGraph
  import opened PatternCircuit

  const MAX_FILE_BYTES: nat := 512 * 1024
  const MAX_IDENTIFIER: nat := 64

  // ----- Writing lines -----

  function Unlines(lines: seq<string>): string {
    if lines == [] then "" else lines[0] + "\n" + Unlines(lines[1..])
  }

  /** One character of a JSON string. */
  function QuotedChar(c: char): string {
    if c == '"' then "\\\"" else if c == '\\' then "\\\\"
    else if c == '\n' then "\\n" else if c == '\t' then "\\t" else if c == '\r' then "\\r"
    else [c]
  }

  function Escaped(s: string): string {
    if s == "" then "" else QuotedChar(s[0]) + Escaped(s[1..])
  }

  function Quoted(s: string): string {
    "\"" + Escaped(s) + "\""
  }

  function DeclText(d: Decl): string {
    match d
    case Classifier(Literal(ch)) => "re.literal@1.0.0 value=" + Quoted([ch])
    case Classifier(Class(name)) => "re.class@1.0.0 set={" + name + "}"
    case Boundary => "re.boundary@1.0.0"
  }

  function PartLine(p: CircuitPart): string {
    "    [" + p.name + " :: " + DeclText(p.decl) + "]"
  }

  function EndText(e: Endpoint): string {
    e.node + "." + e.port
  }

  function WireLine(w: Wire): string {
    "    " + EndText(w.from) + " -> " + EndText(w.to)
  }

  function PartLines(parts: seq<CircuitPart>): seq<string> {
    seq(|parts|, i requires 0 <= i < |parts| => PartLine(parts[i]))
  }

  function WireLines(wires: seq<Wire>): seq<string> {
    seq(|wires|, i requires 0 <= i < |wires| => WireLine(wires[i]))
  }

  function Intent(pattern: string): string {
    "Whole-input match of pattern " + pattern + " - generated; the drawing is the artifact."
  }

  const HEADER_COMMENT := "# GENERATED by galerina gate from-pattern" + " - regenerate rather than edit."

  function HeadLines(name: string, pattern: string, partCount: nat): seq<string> {
    ["@gate 3.0.0",
     HEADER_COMMENT,
     "# parts: " + NatName(partCount),
     "CIRCUIT " + name + "(raw: RawText) -> MatchedText",
     "  INTENT " + Quoted(Intent(pattern)),
     "  REQUIRES:",
     "  PARTS:"]
  }

  function SourceText(name: string, pattern: string, c: Circuit): string {
    Unlines(HeadLines(name, pattern, |c.parts|) + PartLines(c.parts) + ["  WIRES:"] + WireLines(c.wires) + ["END"])
  }

  function Utf8Length(s: string): nat {
    if s == "" then 0
    else
      var k := s[0] as int;
      (if k < 0x80 then 1 else if k < 0x800 then 2 else if k < 0x10000 then 3 else 4) + Utf8Length(s[1..])
  }

  /** The bytes of a text (RFC 3629). */
  ghost function Utf8(s: string): seq<int> {
    if s == "" then []
    else
      var c := s[0] as int;
      (if c < 0x80 then [c]
       else if c < 0x800 then [0xc0 + c / 0x40, 0x80 + c % 0x40]
       else if c < 0x1_0000 then [0xe0 + c / 0x1000, 0x80 + c / 0x40 % 0x40, 0x80 + c % 0x40]
       else [0xf0 + c / 0x4_0000, 0x80 + c / 0x1000 % 0x40, 0x80 + c / 0x40 % 0x40, 0x80 + c % 0x40]) + Utf8(s[1..])
  }

  lemma {:induction false} Utf8LengthIs(s: string)
    ensures |Utf8(s)| == Utf8Length(s)
  {
    if s != "" { Utf8LengthIs(s[1..]); }
  }

  // ----- The generator -----

  datatype Generated =
    | Drawn(circuit: Circuit, source: string)
    | TooManyParts(count: nat) | DrawsNothing | TooManyWires(count: nat) | FileTooLarge

  function Generate(name: string, pattern: string, p: Pattern): Generated {
    if CountParts(p) + 1 > MAX_PARTS then TooManyParts(CountParts(p) + 1)
    else if Expand(p) == [] then DrawsNothing
    else if 2 * CountParts(p) + 3 > MAX_WIRES then TooManyWires(2 * CountParts(p) + 3)
    else
      var c := Drawing(Expand(p));
      var source := SourceText(name, pattern, c);
      if Utf8Length(source) > MAX_FILE_BYTES then FileTooLarge else Drawn(c, source)
  }

  /** Count first, then emit, then look at what has been emitted. */
  method GenerateCircuit(name: string, pattern: string, p: Pattern) returns (r: Generated)
    ensures r == Generate(name, pattern, p)
  {
    CountIsLength(p);
    var partCount := CountParts(p) + 1;
    if partCount > MAX_PARTS { return TooManyParts(partCount); }
    var out := new Emitter();
    var exit := out.Emit(p, START);
    if |out.parts| == 0 { return DrawsNothing; }
    var parts := out.parts + [CircuitPart("end", Boundary)];
    var wires := out.wires;
    wires := wires + [Wire(exit, Endpoint("end", "subject"))];
    wires := wires + [Wire(Endpoint("end", "ok"), Endpoint("OUT", "value"))];
    wires := wires + [Wire(Endpoint("end", "more"), Endpoint("DENY", "trailing_input"))];
    var reasons := out.reasons + ["trailing_input"];
    if |wires| > MAX_WIRES { return TooManyWires(|wires|); }
    var c := Circuit(parts, wires, reasons);
    assert wires == Drawing(Expand(p)).wires;
    assert c == Drawing(Expand(p));
    var source := SourceText(name, pattern, c);
    if Utf8Length(source) > MAX_FILE_BYTES { return FileTooLarge; }
    r := Drawn(c, source);
  }

  /** A pattern is drawn exactly when it has between 1 and 4094 atoms, the ceiling on wires being reached
      before the one on parts, and its source fits the file. */
  lemma DrawnExactly(name: string, pattern: string, p: Pattern)
    ensures Generate(name, pattern, p).Drawn? <==>
      1 <= CountParts(p) <= 4094 && Utf8Length(SourceText(name, pattern, Drawing(Expand(p)))) <= MAX_FILE_BYTES
  {
    CountIsLength(p);
  }

  /** Which refusal comes when: on the count of parts, boundary included, before anything is drawn; then on an
      empty drawing, on the wires and on the bytes. */
  lemma RefusedExactly(name: string, pattern: string, p: Pattern)
    ensures var n, r := CountParts(p), Generate(name, pattern, p);
      && (forall k :: r == TooManyParts(k) <==> n + 1 > 4096 && k == n + 1)
      && (r == DrawsNothing <==> n == 0)
      && (forall k :: r == TooManyWires(k) <==> n == 4095 && k == 8193)
      && (r == FileTooLarge <==> 1 <= n <= 4094 && |Utf8(SourceText(name, pattern, Drawing(Expand(p))))| > 524288)
  {
    CountIsLength(p);
    Utf8LengthIs(SourceText(name, pattern, Drawing(Expand(p))));
  }

  // ----- How long the text is -----

  predicate IsAscii(s: string) {
    forall i :: 0 <= i < |s| ==> s[i] as int < 0x80
  }

  lemma {:induction false} AsciiLength(s: string)
    requires IsAscii(s)
    ensures Utf8Length(s) == |s|
  {
    if s != "" { AsciiLength(s[1..]); }
  }

  lemma {:induction false} UnlinesJoins(a: seq<string>, b: seq<string>)
    ensures Unlines(a + b) == Unlines(a) + Unlines(b)
  {
    if a == [] { assert a + b == b; } else {
      UnlinesJoins(a[1..], b);
      assert (a + b)[1..] == a[1..] + b;
    }
  }

  lemma {:induction false} EscapedBound(s: string)
    ensures |Escaped(s)| <= 2 * |s| && (IsAscii(s) ==> IsAscii(Escaped(s)))
  {
    if s != "" { EscapedBound(s[1..]); }
  }

  lemma FourDigits(n: nat)
    requires n < 10000
    ensures |NatName(n)| <= 4 && IsAscii(NatName(n))
  {
    assert n / 10 / 10 / 10 < 10;
    assert |Digits(n / 10 / 10 / 10)| == 1;
    assert |Digits(n / 10 / 10)| <= 2;
    assert |Digits(n / 10)| <= 3;
  }

  /** The atoms that reading a pattern of ASCII characters yields. */
  predicate Admitted(a: Atom) {
    match a
    case Literal(ch) => ch as int < 0x80
    case Class(name) => name == "digit" || name == "word" || name == "space" || name == "any_but_newline"
  }

  predicate AsciiWithin(s: string, k: nat) {
    |s| <= k && IsAscii(s)
  }

  lemma Joins(a: string, k: nat, b: string, l: nat)
    requires AsciiWithin(a, k) && AsciiWithin(b, l)
    ensures AsciiWithin(a + b, k + l)
  {}

  lemma QuotedBound(s: string, k: nat)
    requires AsciiWithin(s, k)
    ensures AsciiWithin(Quoted(s), 2 * k + 2)
  {
    EscapedBound(s);
    Joins("\"", 1, Escaped(s), 2 * k);
    Joins("\"" + Escaped(s), 2 * k + 1, "\"", 1);
  }

  lemma DeclBound(d: Decl)
    requires d.Classifier? ==> Admitted(d.atom)
    ensures AsciiWithin(DeclText(d), 36)
  {
    match d
    case Classifier(Literal(ch)) =>
      QuotedBound([ch], 1);
      Joins("re.literal@1.0.0 value=", 23, Quoted([ch]), 4);
    case Classifier(Class(name)) =>
      Joins("re.class@1.0.0 set={", 20, name, 15);
      Joins("re.class@1.0.0 set={" + name, 35, "}", 1);
    case Boundary =>
  }

  lemma PartLineBound(p: CircuitPart)
    requires AsciiWithin(p.name, 5) && (p.decl.Classifier? ==> Admitted(p.decl.atom))
    ensures AsciiWithin(PartLine(p), 51)
  {
    DeclBound(p.decl);
    Joins("    [", 5, p.name, 5);
    Joins("    [" + p.name, 10, " :: ", 4);
    Joins("    [" + p.name + " :: ", 14, DeclText(p.decl), 36);
    Joins("    [" + p.name + " :: " + DeclText(p.decl), 50, "]", 1);
  }

  lemma EndTextBound(e: Endpoint, k: nat, l: nat)
    requires AsciiWithin(e.node, k) && AsciiWithin(e.port, l)
    ensures AsciiWithin(EndText(e), k + l + 1)
  {
    Joins(e.node, k, ".", 1);
    Joins(e.node + ".", k + 1, e.port, l);
  }

  lemma WireLineBound(w: Wire, k: nat, l: nat)
    requires AsciiWithin(EndText(w.from), k) && AsciiWithin(EndText(w.to), l)
    ensures AsciiWithin(WireLine(w), k + l + 8)
  {
    Joins("    ", 4, EndText(w.from), k);
    Joins("    " + EndText(w.from), k + 4, " -> ", 4);
    Joins("    " + EndText(w.from) + " -> ", k + 8, EndText(w.to), l);
  }

  lemma NameBound(i: nat)
    requires i < 10000
    ensures AsciiWithin(PartName(i), 5) && AsciiWithin(Reason(i), 16)
  {
    FourDigits(i);
    Joins("p", 1, NatName(i), 4);
    Joins("no_match_at_", 12, NatName(i), 4);
  }

  lemma FeedBound(j: nat)
    requires j < 10000
    ensures AsciiWithin(EndText(Feed(START, 1, j)), 11)
  {
    if j == 0 { EndTextBound(START, 2, 3); } else {
      NameBound(j);
      EndTextBound(Endpoint(PartName(1 + j - 1), "match"), 5, 5);
    }
  }

  lemma InWireBound(j: nat)
    requires j < 9999
    ensures AsciiWithin(WireLine(InWire(START, 1, j)), 32)
  {
    FeedBound(j);
    NameBound(1 + j);
    EndTextBound(Endpoint(PartName(1 + j), "subject"), 5, 7);
    WireLineBound(InWire(START, 1, j), 11, 13);
  }

  lemma NoWireBound(j: nat)
    requires j < 9999
    ensures AsciiWithin(WireLine(NoWire(1, j)), 37)
  {
    NameBound(1 + j);
    EndTextBound(Endpoint(PartName(1 + j), "no"), 5, 2);
    EndTextBound(Endpoint("DENY", Reason(1 + j)), 4, 16);
    WireLineBound(NoWire(1, j), 8, 21);
  }

  /** One line more. */
  lemma LineBound(line: string, k: nat, rest: seq<string>, l: nat)
    requires AsciiWithin(line, k) && AsciiWithin(Unlines(rest), l)
    ensures AsciiWithin(Unlines([line] + rest), k + 1 + l)
  {
    assert ([line] + rest)[1..] == rest;
    Joins(line, k, "\n", 1);
    Joins(line + "\n", k + 1, Unlines(rest), l);
  }

  lemma TwoLinesBound(a: string, k: nat, b: string, l: nat)
    requires AsciiWithin(a, k) && AsciiWithin(b, l)
    ensures AsciiWithin(Unlines([a, b]), k + l + 2)
  {
    LineBound(b, l, [], 0);
    LineBound(a, k, [b], l + 1);
    assert [b] + [] == [b] && [a] + [b] == [a, b];
  }

  lemma LinesJoin(a: seq<string>, k: nat, b: seq<string>, l: nat)
    requires AsciiWithin(Unlines(a), k) && AsciiWithin(Unlines(b), l)
    ensures AsciiWithin(Unlines(a + b), k + l)
  {
    UnlinesJoins(a, b);
    Joins(Unlines(a), k, Unlines(b), l);
  }

  /** The lines of a row's classifiers, ... */
  lemma {:induction false} PartsBound(row: seq<Atom>)
    requires |row| <= 4094 && forall i :: 0 <= i < |row| ==> Admitted(row[i])
    ensures AsciiWithin(Unlines(PartLines(RowParts(row, 1))), 52 * |row|)
  {
    if row != [] {
      var n := |row| - 1;
      PartsBound(row[..n]);
      var part := CircuitPart(PartName(1 + n), Classifier(row[n]));
      OneMorePart(row);
      NameBound(1 + n);
      PartLineBound(part);
      LineBound(PartLine(part), 51, [], 0);
      assert [PartLine(part)] + [] == [PartLine(part)];
      LinesJoin(PartLines(RowParts(row[..n], 1)), 52 * n, [PartLine(part)], 52);
    }
  }

  lemma OneMorePart(row: seq<Atom>)
    requires row != []
    ensures var n := |row| - 1;
      PartLines(RowParts(row, 1)) == PartLines(RowParts(row[..n], 1)) + [PartLine(CircuitPart(PartName(1 + n), Classifier(row[n])))]
  {}

  /** ... and of its wires. */
  lemma {:induction false} WiresBound(n: nat)
    requires n <= 4094
    ensures AsciiWithin(Unlines(WireLines(RowWires(START, 1, n))), 71 * n)
  {
    if n > 0 {
      WiresBound(n - 1);
      OneMoreRow(n - 1);
      InWireBound(n - 1);
      NoWireBound(n - 1);
      var a, b := WireLine(InWire(START, 1, n - 1)), WireLine(NoWire(1, n - 1));
      TwoLinesBound(a, 32, b, 37);
      LinesJoin(WireLines(RowWires(START, 1, n - 1)), 71 * (n - 1), [a, b], 71);
    }
  }

  lemma OneMoreRow(n: nat)
    ensures WireLines(RowWires(START, 1, n + 1)) == WireLines(RowWires(START, 1, n)) + [WireLine(InWire(START, 1, n)), WireLine(NoWire(1, n))]
  {}

  lemma EndBound(n: nat)
    requires 1 <= n <= 4094
    ensures AsciiWithin(Unlines(WireLines(EndWires(Feed(START, 1, n)))), 108)
  {
    var w := EndWires(Feed(START, 1, n));
    FeedBound(n);
    EndTextBound(w[0].to, 3, 7);
    EndTextBound(w[1].from, 3, 2);
    EndTextBound(w[1].to, 3, 5);
    EndTextBound(w[2].from, 3, 4);
    EndTextBound(w[2].to, 4, 14);
    WireLineBound(w[0], 11, 11);
    WireLineBound(w[1], 6, 9);
    WireLineBound(w[2], 8, 19);
    var a, b, c := WireLine(w[0]), WireLine(w[1]), WireLine(w[2]);
    TwoLinesBound(b, 23, c, 35);
    LineBound(a, 30, [b, c], 60);
    assert WireLines(w) == [a] + [b, c];
  }

  lemma HeadBound(name: string, pattern: string, partCount: nat, k: nat)
    requires partCount < 10000 && AsciiWithin(name, MAX_IDENTIFIER) && AsciiWithin(pattern, k)
    ensures AsciiWithin(Unlines(HeadLines(name, pattern, partCount)), 400 + 2 * k)
  {
    var h := HeadLines(name, pattern, partCount);
    CountLineBound(partCount);
    CircuitLineBound(name);
    IntentBound(pattern, k);
    CommentBound();
    assert h[0] == "@gate 3.0.0" && h[1] == HEADER_COMMENT && h[2] == "# parts: " + NatName(partCount);
    assert h[3] == "CIRCUIT " + name + "(raw: RawText) -> MatchedText" && h[4] == "  INTENT " + Quoted(Intent(pattern));
    assert h[5] == "  REQUIRES:" && h[6] == "  PARTS:";
    HeadAdds(h, k);
  }

  lemma CountLineBound(n: nat)
    requires n < 10000
    ensures AsciiWithin("# parts: " + NatName(n), 13)
  {
    FourDigits(n);
    Joins("# parts: ", 9, NatName(n), 4);
  }

  lemma CircuitLineBound(name: string)
    requires AsciiWithin(name, MAX_IDENTIFIER)
    ensures AsciiWithin("CIRCUIT " + name + "(raw: RawText) -> MatchedText", 101)
  {
    Joins("CIRCUIT ", 8, name, 64);
    Joins("CIRCUIT " + name, 72, "(raw: RawText) -> MatchedText", 29);
  }

  lemma CommentBound()
    ensures AsciiWithin(HEADER_COMMENT, 80)
  {
    Joins("# GENERATED by galerina gate from-pattern", 41, " - regenerate rather than edit.", 39);
  }

  lemma HeadAdds(h: seq<string>, k: nat)
    requires |h| == 7 && AsciiWithin(h[0], 11) && AsciiWithin(h[1], 80) && AsciiWithin(h[2], 13) && AsciiWithin(h[3], 101)
    requires AsciiWithin(h[4], 2 * k + 153) && AsciiWithin(h[5], 11) && AsciiWithin(h[6], 8)
    ensures AsciiWithin(Unlines(h), 400 + 2 * k)
  {
    TwoLinesBound(h[5], 11, h[6], 8);
    assert h[5..] == [h[5], h[6]];
    LineMore(h, 4, 2 * k + 153, 21);
    LineMore(h, 3, 101, 2 * k + 175);
    LineMore(h, 2, 13, 2 * k + 277);
    LineMore(h, 1, 80, 2 * k + 291);
    LineMore(h, 0, 11, 2 * k + 372);
    assert h[0..] == h;
  }

  lemma LineMore(h: seq<string>, i: nat, k: nat, l: nat)
    requires i < |h| && AsciiWithin(h[i], k) && AsciiWithin(Unlines(h[i + 1..]), l)
    ensures AsciiWithin(Unlines(h[i..]), k + 1 + l)
  {
    LineBound(h[i], k, h[i + 1..], l);
    assert [h[i]] + h[i + 1..] == h[i..];
  }

  lemma IntentBound(pattern: string, k: nat)
    requires AsciiWithin(pattern, k)
    ensures AsciiWithin("  INTENT " + Quoted(Intent(pattern)), 2 * k + 153)
  {
    Joins("Whole-input match of pattern ", 29, pattern, k);
    Joins("Whole-input match of pattern " + pattern, k + 29, " - generated; the drawing is the artifact.", 42);
    QuotedBound(Intent(pattern), k + 71);
    Joins("  INTENT ", 9, Quoted(Intent(pattern)), 2 * k + 144);
  }

  /** The whole source of up to 4094 atoms. */
  lemma SourceBound(name: string, pattern: string, row: seq<Atom>, k: nat)
    requires 1 <= |row| <= 4094 && (forall i :: 0 <= i < |row| ==> Admitted(row[i]))
    requires AsciiWithin(name, MAX_IDENTIFIER) && AsciiWithin(pattern, k)
    ensures AsciiWithin(SourceText(name, pattern, Drawing(row)), 123 * |row| + 2 * k + 600)
  {
    var n, c := |row|, Drawing(row);
    var head, wires, ends := HeadLines(name, pattern, |c.parts|), WireLines(RowWires(START, 1, n)), WireLines(EndWires(Feed(START, 1, n)));
    var parts, boundary := PartLines(RowParts(row, 1)), PartLine(CircuitPart("end", Boundary));
    HeadBound(name, pattern, |c.parts|, k);
    PartsBound(row);
    PartLineBound(CircuitPart("end", Boundary));
    WiresBound(n);
    EndBound(n);
    TwoLinesBound(boundary, 51, "  WIRES:", 8);
    LineBound("END", 3, [], 0);
    assert ["END"] + [] == ["END"];
    SixJoin(head, 400 + 2 * k, parts, 52 * n, [boundary, "  WIRES:"], 61, wires, 71 * n, ends, 108, ["END"], 4);
    LinesOfDrawing(row);
    Regroup(head, parts, boundary, "  WIRES:", wires, ends, ["END"]);
  }

  lemma LinesOfDrawing(row: seq<Atom>)
    ensures PartLines(Drawing(row).parts) == PartLines(RowParts(row, 1)) + [PartLine(CircuitPart("end", Boundary))]
    ensures WireLines(Drawing(row).wires) == WireLines(RowWires(START, 1, |row|)) + WireLines(EndWires(Feed(START, 1, |row|)))
  {}

  lemma SixJoin(a: seq<string>, k: nat, b: seq<string>, l: nat, c: seq<string>, m: nat,
                d: seq<string>, n: nat, e: seq<string>, o: nat, f: seq<string>, q: nat)
    requires AsciiWithin(Unlines(a), k) && AsciiWithin(Unlines(b), l) && AsciiWithin(Unlines(c), m)
    requires AsciiWithin(Unlines(d), n) && AsciiWithin(Unlines(e), o) && AsciiWithin(Unlines(f), q)
    ensures AsciiWithin(Unlines(a + b + c + d + e + f), k + l + m + n + o + q)
  {
    LinesJoin(a, k, b, l);
    LinesJoin(a + b, k + l, c, m);
    LinesJoin(a + b + c, k + l + m, d, n);
    LinesJoin(a + b + c + d, k + l + m + n, e, o);
    LinesJoin(a + b + c + d + e, k + l + m + n + o, f, q);
  }

  lemma Regroup(head: seq<string>, parts: seq<string>, x: string, y: string, wires: seq<string>, ends: seq<string>, last: seq<string>)
    ensures head + (parts + [x]) + [y] + (wires + ends) + last == head + parts + [x, y] + wires + ends + last
  {}

  /** For patterns of up to 10000 characters the size never refuses: such a pattern is drawn exactly when
      it has between 1 and 4094 atoms. */
  lemma ShortPatternsFit(name: string, pattern: string, p: Pattern)
    requires AsciiWithin(name, MAX_IDENTIFIER) && AsciiWithin(pattern, 10000) && forall a :: a in Expand(p) ==> Admitted(a)
    ensures Generate(name, pattern, p).Drawn? <==> 1 <= CountParts(p) <= 4094
  {
    DrawnExactly(name, pattern, p);
    CountIsLength(p);
    if 1 <= CountParts(p) <= 4094 {
      SourceBound(name, pattern, Expand(p), 10000);
      AsciiLength(SourceText(name, pattern, Drawing(Expand(p))));
    }
  }

  lemma {:induction false} BytesAtLeast(s: string)
    ensures Utf8Length(s) >= |s|
  {
    if s != "" { BytesAtLeast(s[1..]); }
  }

  lemma {:induction false} EscapedAtLeast(s: string)
    ensures |Escaped(s)| >= |s|
  {
    if s != "" { EscapedAtLeast(s[1..]); }
  }

  lemma {:induction false} LineIsPart(lines: seq<string>, i: nat)
    requires i < |lines|
    ensures |Unlines(lines)| > |lines[i]|
  {
    if i > 0 { LineIsPart(lines[1..], i - 1); }
  }

  /** The ceiling on the size does bind: the pattern stands in the source, so one longer than the ceiling
      is never drawn, however few atoms it has. */
  lemma LongPatternsAreRefused(name: string, pattern: string, p: Pattern)
    requires |pattern| >= MAX_FILE_BYTES
    ensures !Generate(name, pattern, p).Drawn?
  {
    var c := Drawing(Expand(p));
    var head := HeadLines(name, pattern, |c.parts|);
    var rest := PartLines(c.parts) + ["  WIRES:"] + WireLines(c.wires) + ["END"];
    assert head + PartLines(c.parts) + ["  WIRES:"] + WireLines(c.wires) + ["END"] == head + rest;
    EscapedAtLeast(Intent(pattern));
    assert (head + rest)[4] == "  INTENT " + Quoted(Intent(pattern));
    LineIsPart(head + rest, 4);
    BytesAtLeast(SourceText(name, pattern, c));
  }
}
