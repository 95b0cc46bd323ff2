/** Reading a generated circuit back from its source text (`gate-from-pattern.ts`,
    generateCircuitFromPattern): the text says exactly the drawing, so it means the pattern. */
module CircuitReadback {
  import opened Options
  import opened DigitText
  import opened GateGraph
  import opened PatternCircuit
  import opened CircuitText

  // ----- A reader of the text -----

  /** Where `c` first stands, or the length. */
  function FirstIndex(t: string, c: char): (k: nat)
    ensures k <= |t| && c !in t[..k] && (k < |t| ==> t[k] == c)
  {
    if t == "" || t[0] == c then 0
    else
      assert forall k :: 0 <= k <= |t[1..]| ==> t[..k + 1] == [t[0]] + t[1..][..k];
      1 + FirstIndex(t[1..], c)
  }

  /** The lines that a line feed ends. */
  function Cut(t: string): seq<string>
    decreases |t|
  {
    var k := FirstIndex(t, '\n');
    if k == |t| then [] else [t[..k]] + Cut(t[k + 1..])
  }

  /** Where `line` first stands, or the length. */
  function LineIndex(lines: seq<string>, line: string): (k: nat)
    ensures k <= |lines|
  {
    if lines == [] || lines[0] == line then 0 else 1 + LineIndex(lines[1..], line)
  }

  /** The lines after the first `from` and before the first `to` behind it. */
  function Between(lines: seq<string>, from: string, to: string): seq<string> {
    var k := LineIndex(lines, from);
    if k == |lines| then []
    else
      var rest := lines[k + 1..];
      rest[..LineIndex(rest, to)]
  }

  /** What is left of `t` without the given front and back. */
  function Inside(front: string, t: string, back: string): Option<string> {
    if |t| >= |front| + |back| && t[..|front|] == front && t[|t| - |back|..] == back
    then Some(t[|front|..|t| - |back|]) else None
  }

  /** One character as it stands in a JSON string. */
  function ReadChar(t: string): Option<char> {
    if |t| == 1 && t[0] != '"' && t[0] != '\\' then Some(t[0])
    else if t == "\\\"" then Some('"')
    else if t == "\\\\" then Some('\\')
    else if t == "\\n" then Some('\n')
    else if t == "\\t" then Some('\t')
    else if t == "\\r" then Some('\r')
    else None
  }

  function ReadDecl(t: string): Option<Decl> {
    if t == "re.boundary@1.0.0" then Some(Boundary)
    else
      match Inside("re.literal@1.0.0 value=\"", t, "\"")
      case Some(body) => (match ReadChar(body) case Some(ch) => Some(Classifier(Literal(ch))) case None => None)
      case None =>
        match Inside("re.class@1.0.0 set={", t, "}")
        case Some(name) => Some(Classifier(Class(name)))
        case None => None
  }

  /** `    [name :: declaration]` */
  function ReadPart(line: string): Option<CircuitPart> {
    match Inside("    [", line, "]")
    case None => None
    case Some(body) =>
      var k := FirstIndex(body, ' ');
      match Inside(" :: ", body[k..], "")
      case None => None
      case Some(decl) =>
        match ReadDecl(decl)
        case None => None
        case Some(d) => Some(CircuitPart(body[..k], d))
  }

  /** `node.port` */
  function ReadEnd(t: string): Option<Endpoint> {
    var k := FirstIndex(t, '.');
    if k == |t| then None else Some(Endpoint(t[..k], t[k + 1..]))
  }

  /** `    producer -> consumer` */
  function ReadWire(line: string): Option<Wire> {
    match Inside("    ", line, "")
    case None => None
    case Some(body) =>
      var k := FirstIndex(body, ' ');
      match Inside(" -> ", body[k..], "")
      case None => None
      case Some(consumer) =>
        match (ReadEnd(body[..k]), ReadEnd(consumer))
        case (Some(a), Some(b)) => Some(Wire(a, b))
        case (None, _) => None
        case (_, None) => None
  }

  function ReadParts(lines: seq<string>): Option<seq<CircuitPart>> {
    if lines == [] then Some([])
    else
      match (ReadPart(lines[0]), ReadParts(lines[1..]))
      case (Some(p), Some(ps)) => Some([p] + ps)
      case (None, _) => None
      case (_, None) => None
  }

  function ReadWires(lines: seq<string>): Option<seq<Wire>> {
    if lines == [] then Some([])
    else
      match (ReadWire(lines[0]), ReadWires(lines[1..]))
      case (Some(w), Some(ws)) => Some([w] + ws)
      case (None, _) => None
      case (_, None) => None
  }

  /** The parts and wires that a text declares. */
  function PartsIn(source: string): Option<seq<CircuitPart>> {
    ReadParts(Between(Cut(source), "  PARTS:", "  WIRES:"))
  }

  function WiresIn(source: string): Option<seq<Wire>> {
    ReadWires(Between(Cut(source), "  WIRES:", "END"))
  }

  // ----- Lines -----

  ghost predicate OneLine(t: string) {
    '\n' !in t
  }

  lemma {:induction false} FirstIndexIs(a: string, c: char, b: string)
    requires c !in a && (b != "" ==> b[0] == c)
    ensures FirstIndex(a + b, c) == |a|
  {
    if a == "" { assert a + b == b; } else {
      FirstIndexIs(a[1..], c, b);
      assert (a + b)[1..] == a[1..] + b && (a + b)[0] == a[0];
    }
  }

  lemma {:induction false} CutUnlines(lines: seq<string>)
    requires forall i :: 0 <= i < |lines| ==> OneLine(lines[i])
    ensures Cut(Unlines(lines)) == lines
  {
    if lines != [] {
      CutUnlines(lines[1..]);
      CutFirst(lines[0], Unlines(lines[1..]));
    }
  }

  lemma CutFirst(line: string, rest: string)
    requires OneLine(line)
    ensures Cut(line + "\n" + rest) == [line] + Cut(rest)
  {
    var t := line + "\n" + rest;
    assert t == line + ("\n" + rest);
    FirstIndexIs(line, '\n', "\n" + rest);
    assert t[..|line|] == line && t[|line| + 1..] == rest;
  }

  lemma {:induction false} LineIndexIs(a: seq<string>, line: string, b: seq<string>)
    requires line !in a
    ensures LineIndex(a + [line] + b, line) == |a|
  {
    if a == [] { assert a + [line] + b == [line] + b; } else {
      LineIndexIs(a[1..], line, b);
      assert (a + [line] + b)[1..] == a[1..] + [line] + b;
      assert a[0] in a;
    }
  }

  lemma BetweenIs(a: seq<string>, from: string, b: seq<string>, to: string, c: seq<string>)
    requires from !in a && to !in b
    ensures Between(a + [from] + b + [to] + c, from, to) == b
  {
    var lines := a + [from] + b + [to] + c;
    assert lines == a + [from] + (b + [to] + c);
    LineIndexIs(a, from, b + [to] + c);
    assert lines[|a| + 1..] == b + [to] + c;
    LineIndexIs(b, to, c);
    assert (b + [to] + c)[..|b|] == b;
  }

  lemma InsideIs(front: string, body: string, back: string)
    ensures Inside(front, front + body + back, back) == Some(body)
  {
    var t := front + body + back;
    assert t[..|front|] == front && t[|t| - |back|..] == back && t[|front|..|t| - |back|] == body;
  }

  // ----- Single lines -----

  lemma EndReads(e: Endpoint)
    requires '.' !in e.node
    ensures ReadEnd(EndText(e)) == Some(e)
  {
    var t := e.node + "." + e.port;
    assert t == e.node + ("." + e.port);
    FirstIndexIs(e.node, '.', "." + e.port);
    assert t[..|e.node|] == e.node && t[|e.node| + 1..] == e.port;
  }

  /** A line of two parts with a mark between them, inside a frame. */
  lemma FrameReads(front: string, name: string, mark: string, rest: string, back: string)
    requires ' ' !in name && mark != "" && mark[0] == ' '
    ensures var body := name + mark + rest;
      && Inside(front, front + body + back, back) == Some(body)
      && FirstIndex(body, ' ') == |name| && body[..|name|] == name
      && Inside(mark, body[|name|..], "") == Some(rest)
  {
    var body := name + mark + rest;
    InsideIs(front, body, back);
    assert body == name + (mark + rest);
    FirstIndexIs(name, ' ', mark + rest);
    assert body[..|name|] == name && body[|name|..] == mark + rest + "";
    InsideIs(mark, rest, "");
  }

  lemma WireReads(w: Wire)
    requires '.' !in w.from.node && '.' !in w.to.node && ' ' !in EndText(w.from)
    ensures ReadWire(WireLine(w)) == Some(w)
  {
    var a, b := EndText(w.from), EndText(w.to);
    var body := a + " -> " + b;
    assert WireLine(w) == "    " + body + "";
    FrameReads("    ", a, " -> ", b, "");
    EndReads(w.from);
    EndReads(w.to);
    WireAssembles(WireLine(w), body, a, b, w.from, w.to);
  }

  lemma WireAssembles(line: string, body: string, a: string, b: string, x: Endpoint, y: Endpoint)
    requires Inside("    ", line, "") == Some(body) && FirstIndex(body, ' ') == |a| && |a| <= |body| && body[..|a|] == a
    requires Inside(" -> ", body[|a|..], "") == Some(b) && ReadEnd(a) == Some(x) && ReadEnd(b) == Some(y)
    ensures ReadWire(line) == Some(Wire(x, y))
  {}

  lemma CharReads(c: char)
    ensures ReadChar(QuotedChar(c)) == Some(c)
  {}

  lemma LiteralReads(ch: char)
    ensures ReadDecl("re.literal@1.0.0 value=\"" + QuotedChar(ch) + "\"") == Some(Classifier(Literal(ch)))
  {
    var t := "re.literal@1.0.0 value=\"" + QuotedChar(ch) + "\"";
    InsideIs("re.literal@1.0.0 value=\"", QuotedChar(ch), "\"");
    CharReads(ch);
    assert t[3] == 'l' && "re.boundary@1.0.0"[3] == 'b';
  }

  lemma NotInside(front: string, t: string, back: string, i: nat)
    requires i < |front| && (i < |t| ==> t[i] != front[i])
    ensures Inside(front, t, back) == None
  {
    assert i < |t| && |front| <= |t| ==> t[..|front|][i] == t[i];
  }

  lemma ClassReads(name: string)
    ensures ReadDecl("re.class@1.0.0 set={" + name + "}") == Some(Classifier(Class(name)))
  {
    var t := "re.class@1.0.0 set={" + name + "}";
    InsideIs("re.class@1.0.0 set={", name, "}");
    assert t[3] == 'c' && "re.boundary@1.0.0"[3] == 'b';
    assert "re.literal@1.0.0 value=\""[3] == 'l';
    NotInside("re.literal@1.0.0 value=\"", t, "\"", 3);
  }

  lemma DeclReads(d: Decl)
    ensures ReadDecl(DeclText(d)) == Some(d)
  {
    match d
    case Classifier(Literal(ch)) =>
      LiteralReads(ch);
      QuotedOne(ch);
    case Classifier(Class(name)) => ClassReads(name);
    case Boundary =>
  }

  lemma QuotedOne(ch: char)
    ensures "re.literal@1.0.0 value=" + Quoted([ch]) == "re.literal@1.0.0 value=\"" + QuotedChar(ch) + "\""
  {
    assert Escaped([ch]) == QuotedChar(ch) + Escaped([ch][1..]) && [ch][1..] == "";
    assert Escaped([ch]) == QuotedChar(ch);
    assert "re.literal@1.0.0 value=\"" == "re.literal@1.0.0 value=" + "\"";
  }

  lemma PartReads(p: CircuitPart)
    requires ' ' !in p.name
    ensures ReadPart(PartLine(p)) == Some(p)
  {
    var decl := DeclText(p.decl);
    var body := p.name + " :: " + decl;
    assert PartLine(p) == "    [" + body + "]";
    FrameReads("    [", p.name, " :: ", decl, "]");
    DeclReads(p.decl);
    PartAssembles(PartLine(p), body, p.name, decl, p.decl);
  }

  lemma PartAssembles(line: string, body: string, name: string, decl: string, d: Decl)
    requires Inside("    [", line, "]") == Some(body) && FirstIndex(body, ' ') == |name| && |name| <= |body| && body[..|name|] == name
    requires Inside(" :: ", body[|name|..], "") == Some(decl) && ReadDecl(decl) == Some(d)
    ensures ReadPart(line) == Some(CircuitPart(name, d))
  {}

  lemma PartsCons(line: string, p: CircuitPart, lines: seq<string>, ps: seq<CircuitPart>)
    requires ReadPart(line) == Some(p) && ReadParts(lines) == Some(ps)
    ensures ReadParts([line] + lines) == Some([p] + ps)
  {
    assert ([line] + lines)[1..] == lines;
  }

  lemma WiresCons(line: string, w: Wire, lines: seq<string>, ws: seq<Wire>)
    requires ReadWire(line) == Some(w) && ReadWires(lines) == Some(ws)
    ensures ReadWires([line] + lines) == Some([w] + ws)
  {
    assert ([line] + lines)[1..] == lines;
  }

  lemma PartLinesCons(parts: seq<CircuitPart>)
    requires parts != []
    ensures PartLines(parts) == [PartLine(parts[0])] + PartLines(parts[1..]) && parts == [parts[0]] + parts[1..]
  {}

  lemma WireLinesCons(wires: seq<Wire>)
    requires wires != []
    ensures WireLines(wires) == [WireLine(wires[0])] + WireLines(wires[1..]) && wires == [wires[0]] + wires[1..]
  {}

  lemma {:induction false} PartsRead(parts: seq<CircuitPart>)
    requires forall i :: 0 <= i < |parts| ==> ' ' !in parts[i].name
    ensures ReadParts(PartLines(parts)) == Some(parts)
  {
    if parts != [] {
      PartReads(parts[0]);
      PartsRead(parts[1..]);
      PartsCons(PartLine(parts[0]), parts[0], PartLines(parts[1..]), parts[1..]);
      PartLinesCons(parts);
    }
  }

  ghost predicate Readable(w: Wire) {
    '.' !in w.from.node && '.' !in w.to.node && ' ' !in EndText(w.from)
  }

  lemma {:induction false} WiresRead(wires: seq<Wire>)
    requires forall i :: 0 <= i < |wires| ==> Readable(wires[i])
    ensures ReadWires(WireLines(wires)) == Some(wires)
  {
    if wires != [] {
      WireReads(wires[0]);
      WiresRead(wires[1..]);
      WiresCons(WireLine(wires[0]), wires[0], WireLines(wires[1..]), wires[1..]);
      WireLinesCons(wires);
    }
  }

  // ----- The lines of a drawing -----

  /** Letters, digits and underscores only. */
  ghost predicate Plain(t: string) {
    forall i :: 0 <= i < |t| ==> t[i] != ' ' && t[i] != '.' && t[i] != '\n'
  }

  lemma NamesArePlain(i: nat)
    ensures Plain(NatName(i)) && Plain(PartName(i)) && Plain(Reason(i))
  {
    NatNameIsDecimal(i);
  }

  lemma FeedIsPlain(j: nat)
    ensures Plain(Feed(START, 1, j).node) && Plain(Feed(START, 1, j).port)
  {
    if j > 0 { NamesArePlain(j); }
  }

  ghost predicate PlainWire(w: Wire) {
    Plain(w.from.node) && Plain(w.from.port) && Plain(w.to.node) && Plain(w.to.port)
  }

  lemma RowWiresArePlain(j: nat)
    ensures PlainWire(InWire(START, 1, j)) && PlainWire(NoWire(1, j))
  {
    NamesArePlain(1 + j);
    FeedIsPlain(j);
  }

  lemma EndWiresArePlain(n: nat)
    ensures var ends := EndWires(Feed(START, 1, n)); PlainWire(ends[0]) && PlainWire(ends[1]) && PlainWire(ends[2])
  {
    FeedIsPlain(n);
  }

  lemma WireIsPlain(row: seq<Atom>, j: nat)
    requires j < |Drawing(row).wires|
    ensures PlainWire(Drawing(row).wires[j])
  {
    WireShape(row, j);
    RowWiresArePlain(j / 2);
    EndWiresArePlain(|row|);
  }

  lemma WireIsReadable(w: Wire)
    requires PlainWire(w)
    ensures Readable(w) && OneLine(WireLine(w)) && WireLine(w)[0] == ' '
  {
    assert Plain(w.from.node + w.from.port);
  }

  lemma PartIsPlain(row: seq<Atom>, i: nat)
    requires i <= |row|
    ensures Plain(Drawing(row).parts[i].name)
  {
    if i < |row| { NamesArePlain(1 + i); }
  }

  lemma QuotedIsOneLine(c: char)
    ensures OneLine(QuotedChar(c))
  {}

  lemma {:induction false} EscapedIsOneLine(s: string)
    ensures OneLine(Escaped(s))
  {
    if s != "" {
      QuotedIsOneLine(s[0]);
      EscapedIsOneLine(s[1..]);
    }
  }

  lemma PartIsOneLine(p: CircuitPart)
    requires Plain(p.name) && (p.decl.Classifier? && p.decl.atom.Class? ==> OneLine(p.decl.atom.name))
    ensures OneLine(PartLine(p)) && PartLine(p)[..3] == "   "
  {
    if p.decl.Classifier? && p.decl.atom.Literal? { EscapedIsOneLine([p.decl.atom.ch]); }
    assert OneLine(DeclText(p.decl));
  }

  ghost predicate ClassesOnOneLine(row: seq<Atom>) {
    forall i :: 0 <= i < |row| && row[i].Class? ==> OneLine(row[i].name)
  }

  ghost predicate PartLinesFit(lines: seq<string>) {
    forall i :: 0 <= i < |lines| ==> OneLine(lines[i]) && |lines[i]| >= 3 && lines[i][..3] == "   "
  }

  ghost predicate WireLinesFit(lines: seq<string>) {
    forall i :: 0 <= i < |lines| ==> OneLine(lines[i]) && lines[i] != "" && lines[i][0] == ' '
  }

  lemma PartLinesOf(row: seq<Atom>)
    requires ClassesOnOneLine(row)
    ensures PartLinesFit(PartLines(Drawing(row).parts)) && ReadParts(PartLines(Drawing(row).parts)) == Some(Drawing(row).parts)
  {
    var parts := Drawing(row).parts;
    forall i | 0 <= i < |parts|
      ensures ' ' !in parts[i].name && OneLine(PartLine(parts[i])) && |PartLine(parts[i])| >= 3 && PartLine(parts[i])[..3] == "   "
    {
      PartIsPlain(row, i);
      PartIsOneLine(parts[i]);
    }
    PartsRead(parts);
  }

  lemma WireLinesOf(row: seq<Atom>)
    ensures WireLinesFit(WireLines(Drawing(row).wires)) && ReadWires(WireLines(Drawing(row).wires)) == Some(Drawing(row).wires)
  {
    var wires := Drawing(row).wires;
    forall i | 0 <= i < |wires| ensures Readable(wires[i]) && OneLine(WireLine(wires[i])) && WireLine(wires[i]) != "" && WireLine(wires[i])[0] == ' ' {
      WireIsPlain(row, i);
      WireIsReadable(wires[i]);
    }
    WiresRead(wires);
  }

  // ----- The whole text -----

  /** The lines before the parts, the name and the pattern as they stand there. */
  ghost predicate IsHead(lines: seq<string>, name: string, pattern: string, parts: nat) {
    && |lines| == 6
    && lines[0] == "@gate 3.0.0"
    && lines[1] == "# GENERATED by galerina gate from-pattern" + " - regenerate rather than edit."
    && (exists d :: IsDecimal(d, parts) && lines[2] == "# parts: " + d)
    && Inside("CIRCUIT ", lines[3], "(raw: RawText) -> MatchedText") == Some(name)
    && (match Inside("  INTENT \"", lines[4], "\"")
        case None => false
        case Some(t) =>
          ReadEscaped(t) == Some("Whole-input match of pattern " + pattern + " - generated; the drawing is the artifact."))
    && lines[5] == "  REQUIRES:"
  }

  /** The text inside the quotes of a JSON string. */
  function ReadEscaped(t: string): Option<string>
    decreases |t|
  {
    if t == "" then Some("")
    else
      var k := if t[0] == '\\' && |t| > 1 then 2 else 1;
      match (ReadChar(t[..k]), ReadEscaped(t[k..]))
      case (Some(c), Some(rest)) => Some([c] + rest)
      case (None, _) => None
      case (_, None) => None
  }

  lemma EscapedCons(c: char, t: string, s: string)
    requires ReadEscaped(t) == Some(s)
    ensures ReadEscaped(QuotedChar(c) + t) == Some([c] + s)
  {
    var q := QuotedChar(c);
    CharReads(c);
    assert (q + t)[..|q|] == q && (q + t)[|q|..] == t;
  }

  lemma {:induction false} EscapedReads(s: string)
    ensures ReadEscaped(Escaped(s)) == Some(s)
  {
    if s != "" {
      EscapedReads(s[1..]);
      EscapedCons(s[0], Escaped(s[1..]), s[1..]);
      assert s == [s[0]] + s[1..];
    }
  }

  lemma IntentReads(pattern: string)
    ensures Inside("  INTENT \"", "  INTENT " + Quoted(Intent(pattern)), "\"") == Some(Escaped(Intent(pattern)))
  {
    var t := Escaped(Intent(pattern));
    assert "  INTENT " + Quoted(Intent(pattern)) == "  INTENT \"" + t + "\"";
    InsideIs("  INTENT \"", t, "\"");
  }

  lemma HeadReads(name: string, pattern: string, parts: nat)
    ensures IsHead(HeadLines(name, pattern, parts)[..6], name, pattern, parts) && HeadLines(name, pattern, parts)[6] == "  PARTS:"
  {
    var h := HeadLines(name, pattern, parts);
    NatNameIsDecimal(parts);
    assert h[2] == "# parts: " + NatName(parts);
    InsideIs("CIRCUIT ", name, "(raw: RawText) -> MatchedText");
    assert h[3] == "CIRCUIT " + name + "(raw: RawText) -> MatchedText";
    IntentReads(pattern);
    EscapedReads(Intent(pattern));
    assert h[4] == "  INTENT " + Quoted(Intent(pattern));
  }

  /** No head line is taken for a heading further down. */
  ghost predicate HeadFits(h: seq<string>) {
    (forall i :: 0 <= i < |h| ==> OneLine(h[i])) && "  PARTS:" !in h && "  WIRES:" !in h
  }

  lemma HeadMarks(h: seq<string>)
    requires |h| == 6 && (forall i :: 0 <= i < 6 ==> |h[i]| > 2)
    requires h[0][0] == '@' && h[1][0] == '#' && h[2][0] == '#' && h[3][0] == 'C' && h[4][2] == 'I' && h[5][2] == 'R'
    ensures "  PARTS:" !in h && "  WIRES:" !in h
  {
    var p, w := "  PARTS:", "  WIRES:";
    assert p[0] == ' ' && p[2] == 'P' && w[0] == ' ' && w[2] == 'W';
  }

  lemma LineJoins(a: string, b: string)
    requires OneLine(a) && OneLine(b)
    ensures OneLine(a + b)
  {}

  lemma CountLine(parts: nat)
    ensures OneLine("# parts: " + NatName(parts))
  {
    NamesArePlain(parts);
    LineJoins("# parts: ", NatName(parts));
  }

  lemma CircuitLine(name: string)
    requires OneLine(name)
    ensures OneLine("CIRCUIT " + name + "(raw: RawText) -> MatchedText")
  {
    LineJoins("CIRCUIT ", name);
    LineJoins("CIRCUIT " + name, "(raw: RawText) -> MatchedText");
  }

  lemma IntentLine(intent: string)
    ensures OneLine("  INTENT " + Quoted(intent))
  {
    EscapedIsOneLine(intent);
    LineJoins("\"", Escaped(intent));
    LineJoins("\"" + Escaped(intent), "\"");
    LineJoins("  INTENT ", Quoted(intent));
  }

  lemma CommentLine()
    ensures OneLine(HEADER_COMMENT)
  {
    LineJoins("# GENERATED by galerina gate from-pattern", " - regenerate rather than edit.");
  }

  lemma HeadLinesFit(name: string, pattern: string, parts: nat)
    requires OneLine(name)
    ensures HeadFits(HeadLines(name, pattern, parts)[..6])
  {
    var h := HeadLines(name, pattern, parts)[..6];
    CountLine(parts);
    CircuitLine(name);
    IntentLine(Intent(pattern));
    CommentLine();
    assert h[0] == "@gate 3.0.0" && h[1] == HEADER_COMMENT && h[2] == "# parts: " + NatName(parts);
    assert h[3] == "CIRCUIT " + name + "(raw: RawText) -> MatchedText";
    assert h[4] == "  INTENT " + Quoted(Intent(pattern)) && h[5] == "  REQUIRES:";
    HeadMarks(h);
  }

  function Listed(h: seq<string>, parts: seq<string>, wires: seq<string>): seq<string> {
    h + ["  PARTS:"] + parts + ["  WIRES:"] + wires + ["END"]
  }

  lemma CutListed(h: seq<string>, parts: seq<string>, wires: seq<string>)
    requires HeadFits(h) && PartLinesFit(parts) && WireLinesFit(wires)
    ensures Cut(Unlines(Listed(h, parts, wires))) == Listed(h, parts, wires)
  {
    AllOneLine(h, "  PARTS:", parts, "  WIRES:", wires, "END");
    CutUnlines(Listed(h, parts, wires));
  }

  lemma ListedReads(h: seq<string>, parts: seq<string>, wires: seq<string>)
    requires HeadFits(h) && PartLinesFit(parts) && WireLinesFit(wires)
    ensures Between(Listed(h, parts, wires), "  PARTS:", "  WIRES:") == parts
    ensures Between(Listed(h, parts, wires), "  WIRES:", "END") == wires
    ensures Listed(h, parts, wires)[..|h|] == h
  {
    NotAmong(parts, wires);
    assert Listed(h, parts, wires) == h + ["  PARTS:"] + parts + ["  WIRES:"] + (wires + ["END"]);
    BetweenIs(h, "  PARTS:", parts, "  WIRES:", wires + ["END"]);
    var before := h + ["  PARTS:"] + parts;
    assert "  PARTS:"[2] == 'P' && "  WIRES:"[2] == 'W';
    assert "  WIRES:" !in before;
    assert Listed(h, parts, wires) == before + ["  WIRES:"] + wires + ["END"] + [];
    BetweenIs(before, "  WIRES:", wires, "END", []);
  }

  lemma AllOneLine(a: seq<string>, x: string, b: seq<string>, y: string, c: seq<string>, z: string)
    requires (forall i :: 0 <= i < |a| ==> OneLine(a[i])) && PartLinesFit(b) && WireLinesFit(c) && OneLine(x) && OneLine(y) && OneLine(z)
    ensures var lines := a + [x] + b + [y] + c + [z]; forall i :: 0 <= i < |lines| ==> OneLine(lines[i])
  {}

  /** The text of a drawing declares exactly its parts and wires, under the circuit's name, after the
      pattern it was drawn for. */
  lemma SourceReads(name: string, pattern: string, row: seq<Atom>)
    requires OneLine(name) && ClassesOnOneLine(row)
    ensures var c := Drawing(row); var source := SourceText(name, pattern, c);
      && PartsIn(source) == Some(c.parts) && WiresIn(source) == Some(c.wires)
      && |Cut(source)| > 6 && IsHead(Cut(source)[..6], name, pattern, |c.parts|)
  {
    var c := Drawing(row);
    var h, parts, wires := HeadLines(name, pattern, |c.parts|)[..6], PartLines(c.parts), WireLines(c.wires);
    HeadReads(name, pattern, |c.parts|);
    HeadLinesFit(name, pattern, |c.parts|);
    PartLinesOf(row);
    WireLinesOf(row);
    assert HeadLines(name, pattern, |c.parts|) == h + ["  PARTS:"];
    CutListed(h, parts, wires);
    ListedReads(h, parts, wires);
  }

  lemma NotAmong(parts: seq<string>, wires: seq<string>)
    requires PartLinesFit(parts) && WireLinesFit(wires)
    ensures "  WIRES:" !in parts && "END" !in wires
  {
    assert "  WIRES:"[..3][2] == 'W' && "   "[2] == ' ' && "END"[0] == 'E';
  }

  /** What a generated text says: reading it gives the circuit that was drawn, and the circuit so read
      accepts exactly the inputs that the pattern matches. */
  lemma GeneratedTextMeansPattern(classes: Classes, name: string, pattern: string, p: Pattern, text: string, steps: nat)
    requires Generate(name, pattern, p).Drawn? && OneLine(name) && ClassesOnOneLine(Expand(p)) && steps >= CountParts(p) + 2
    ensures var drawn := Generate(name, pattern, p);
      && PartsIn(drawn.source) == Some(drawn.circuit.parts) && WiresIn(drawn.source) == Some(drawn.circuit.wires)
      && |Cut(drawn.source)| > 6 && IsHead(Cut(drawn.source)[..6], name, pattern, |drawn.circuit.parts|)
      && var read := Circuit(PartsIn(drawn.source).value, WiresIn(drawn.source).value, []);
         Follow(classes, read, Endpoint("IN", "raw"), text, steps) == Accepted <==> Matches(classes, p, text)
  {
    var c := Drawing(Expand(p));
    SourceReads(name, pattern, Expand(p));
    DrawingMeansPattern(classes, p, text, steps);
    SameRun(classes, c, Circuit(c.parts, c.wires, []), START, text, steps);
  }

  lemma {:induction false} SameRun(classes: Classes, c: Circuit, c': Circuit, from: Endpoint, text: string, steps: nat)
    requires c.parts == c'.parts && c.wires == c'.wires
    ensures Follow(classes, c, from, text, steps) == Follow(classes, c', from, text, steps)
    decreases steps
  {
    if steps > 0 && Consumer(c.wires, from).Some? {
      var to := Consumer(c.wires, from).value;
      match Declared(c.parts, to.node)
      case Some(Classifier(_)) =>
        if text != [] { SameRun(classes, c, c', Endpoint(to.node, "match"), text[1..], steps - 1); }
        SameRun(classes, c, c', Endpoint(to.node, "no"), text, steps - 1);
      case Some(Boundary) => SameRun(classes, c, c', Endpoint(to.node, if text == [] then "ok" else "more"), text, steps - 1);
      case None =>
    }
  }
}
