/** The two line patterns of `flow-dependency-analysis.ts`, rewriteGeneratedComments. */
module LinePatterns {
  import opened Options

  /** White space as JavaScript's regular expressions see it. */
  predicate IsSpace(c: char) {
    var k := c as int;
    || 0x09 <= k <= 0x0d || k == 0x20 || k == 0xa0 || k == 0x1680 || 0x2000 <= k <= 0x200a
    || k == 0x2028 || k == 0x2029 || k == 0x202f || k == 0x205f || k == 0x3000 || k == 0xfeff
  }

  predicate IsWordChar(c: char) {
    '0' <= c <= '9' || 'A' <= c <= 'Z' || 'a' <= c <= 'z' || c == '_'
  }

  /** How many characters of the kind the text starts with. */
  function Run(kind: char -> bool, t: string): (k: nat)
    ensures k <= |t| && forall i :: 0 <= i < k ==> kind(t[i])
    ensures k < |t| ==> !kind(t[k])
  {
    if t == [] || !kind(t[0]) then 0 else 1 + Run(kind, t[1..])
  }

  function Trimmed(t: string): string {
    t[Run(IsSpace, t)..]
  }

  const MARK := "//fungi:"

  predicate IsGenerated(line: string) {
    MARK <= Trimmed(line)
  }

  datatype Declaration = Declaration(indent: string, name: string)

  /** What follows `word` and at least one space, if the text starts so. */
  function After(word: string, t: string): Option<string> {
    if word <= t && Run(IsSpace, t[|word|..]) > 0 then Some(Trimmed(t[|word|..])) else None
  }

  function WithoutModifier(t: string): string {
    match After("pure", t)
    case Some(rest) => rest
    case None =>
      match After("secure", t)
      case Some(rest) => rest
      case None =>
        match After("guarded", t)
        case Some(rest) => rest
        case None => t
  }

  function FlowOf(line: string): Option<Declaration> {
    match After("flow", WithoutModifier(Trimmed(line)))
    case None => None
    case Some(rest) =>
      var k := Run(IsWordChar, rest);
      if k == 0 then None else Some(Declaration(line[..Run(IsSpace, line)], rest[..k]))
  }

  predicate IsName(t: string) {
    t != [] && forall i :: 0 <= i < |t| ==> IsWordChar(t[i])
  }

  lemma {:induction false} RunIs(kind: char -> bool, a: string, b: string)
    requires (forall i :: 0 <= i < |a| ==> kind(a[i])) && (b != [] ==> !kind(b[0]))
    ensures Run(kind, a + b) == |a|
  {
    if a == [] { assert a + b == b; } else {
      RunIs(kind, a[1..], b);
      assert (a + b)[1..] == a[1..] + b;
    }
  }

  /** A generated line is never a declaration. */
  lemma GeneratedDeclaresNothing(line: string)
    requires IsGenerated(line)
    ensures FlowOf(line).None?
  {
    assert Trimmed(line)[0] == MARK[0];
  }

  /** The declaration that a line yields: its name is a name and its indent is white space. */
  lemma DeclarationShape(line: string)
    requires FlowOf(line).Some?
    ensures IsName(FlowOf(line).value.name)
    ensures forall i :: 0 <= i < |FlowOf(line).value.indent| ==> IsSpace(FlowOf(line).value.indent[i])
    ensures FlowOf(line).value.indent <= line
  {}

  lemma {:induction false} IndentedTrims(indent: string, line: string)
    requires forall i :: 0 <= i < |indent| ==> IsSpace(indent[i])
    ensures Trimmed(indent + line) == Trimmed(line)
  {
    if indent == [] { assert indent + line == line; } else {
      IndentedTrims(indent[1..], line);
      assert (indent + line)[1..] == indent[1..] + line;
    }
  }

  // ----- What the patterns say -----

  /** The white space of ECMAScript: the control characters, the space separators, the line separators and
      the byte order mark. */
  const SPACES: set<char> := {
    '\t', '\n', '\U{b}', '\U{c}', '\r', ' ', '\U{a0}', '\U{1680}', '\U{2000}', '\U{2001}', '\U{2002}', '\U{2003}',
    '\U{2004}', '\U{2005}', '\U{2006}', '\U{2007}', '\U{2008}', '\U{2009}', '\U{200a}', '\U{2028}', '\U{2029}',
    '\U{202f}', '\U{205f}', '\U{3000}', '\U{feff}'}

  lemma SpacesAre(c: char)
    ensures IsSpace(c) <==> c in SPACES
  {
    var k := c as int;
    if 9 <= k <= 13 { assert k == 9 || k == 10 || k == 11 || k == 12 || k == 13; }
    if 0x2000 <= k <= 0x200a {
      assert k == 0x2000 || k == 0x2001 || k == 0x2002 || k == 0x2003 || k == 0x2004 || k == 0x2005
        || k == 0x2006 || k == 0x2007 || k == 0x2008 || k == 0x2009 || k == 0x200a;
    }
    assert c == k as char;
  }

  ghost predicate Blank(t: string) {
    forall i :: 0 <= i < |t| ==> IsSpace(t[i])
  }

  lemma {:induction false} TrimmedIs(gap: string, t: string)
    requires Blank(gap) && (t != "" ==> !IsSpace(t[0]))
    ensures Trimmed(gap + t) == t && Run(IsSpace, gap + t) == |gap|
  {
    RunIs(IsSpace, gap, t);
    assert (gap + t)[|gap|..] == t;
  }

  lemma TrimmedSplits(t: string) returns (gap: string)
    ensures t == gap + Trimmed(t) && Blank(gap) && |gap| == Run(IsSpace, t)
    ensures Trimmed(t) != "" ==> !IsSpace(Trimmed(t)[0])
  {
    gap := t[..Run(IsSpace, t)];
  }

  /** A line is generated if and only if, white space aside, it starts with `//fungi:`. */
  lemma GeneratedMeans(line: string)
    ensures IsGenerated(line) <==> exists gap, rest :: line == gap + "//fungi:" + rest && Blank(gap)
  {
    if IsGenerated(line) {
      var gap := TrimmedSplits(line);
      var rest := Trimmed(line)[8..];
      assert Trimmed(line) == "//fungi:" + rest;
      assert line == gap + "//fungi:" + rest;
    }
    if gap, rest :| line == gap + "//fungi:" + rest && Blank(gap) {
      assert line == gap + ("//fungi:" + rest);
      TrimmedIs(gap, "//fungi:" + rest);
      assert ("//fungi:" + rest)[..8] == "//fungi:";
    }
  }

  lemma AfterIs(word: string, gap: string, rest: string)
    requires Blank(gap) && gap != "" && (rest != "" ==> !IsSpace(rest[0]))
    ensures After(word, word + gap + rest) == Some(rest)
  {
    assert (word + gap + rest)[|word|..] == gap + rest;
    TrimmedIs(gap, rest);
  }

  lemma AfterSplits(word: string, t: string) returns (gap: string)
    requires After(word, t).Some?
    ensures var rest := After(word, t).value; t == word + gap + rest && Blank(gap) && gap != "" && (rest != "" ==> !IsSpace(rest[0]))
  {
    gap := TrimmedSplits(t[|word|..]);
    assert t == word + t[|word|..];
  }

  ghost predicate IsModifier(modifier: string, gap: string) {
    && Blank(gap)
    && if gap == "" then modifier == "" else modifier == "pure" || modifier == "secure" || modifier == "guarded"
  }

  /** White space, perhaps a modifier, the word `flow` and a name that ends where its letters end. */
  ghost predicate DeclaresAs(line: string, d: Declaration, modifier: string, gap: string, space: string, tail: string) {
    && line == d.indent + modifier + gap + "flow" + space + d.name + tail
    && Blank(d.indent) && IsModifier(modifier, gap) && Blank(space) && space != ""
    && IsName(d.name) && (tail != "" ==> !IsWordChar(tail[0]))
  }

  ghost predicate Declares(line: string, d: Declaration) {
    exists modifier, gap, space, tail :: DeclaresAs(line, d, modifier, gap, space, tail)
  }

  lemma ModifierIs(modifier: string, gap: string, rest: string)
    requires IsModifier(modifier, gap) && rest != "" && rest[0] == 'f'
    ensures WithoutModifier(modifier + gap + rest) == rest
  {
    if gap == "" {
      assert modifier + gap + rest == rest;
    } else {
      AfterIs(modifier, gap, rest);
      assert modifier + gap + rest == modifier + (gap + rest);
      if modifier != "pure" { OtherWord("pure", modifier, gap + rest); }
      if modifier == "guarded" { OtherWord("secure", modifier, gap + rest); }
    }
  }

  lemma OtherWord(word: string, modifier: string, rest: string)
    requires word != "" && modifier != "" && word[0] != modifier[0]
    ensures After(word, modifier + rest).None?
  {
    assert (modifier + rest)[0] == modifier[0];
  }

  lemma ModifierSplits(t: string) returns (modifier: string, gap: string)
    ensures t == modifier + gap + WithoutModifier(t) && IsModifier(modifier, gap)
  {
    if After("pure", t).Some? {
      modifier := "pure";
      gap := AfterSplits("pure", t);
    } else if After("secure", t).Some? {
      modifier := "secure";
      gap := AfterSplits("secure", t);
    } else if After("guarded", t).Some? {
      modifier := "guarded";
      gap := AfterSplits("guarded", t);
    } else {
      modifier, gap := "", "";
      assert t == "" + "" + t;
    }
  }

  /** A line is read as a declaration if and only if it is one. */
  lemma DeclarationMeans(line: string, d: Declaration)
    ensures FlowOf(line) == Some(d) <==> Declares(line, d)
  {
    if FlowOf(line) == Some(d) { ReadDeclares(line, d); }
    if Declares(line, d) { DeclaredIsRead(line, d); }
  }

  /** The steps of reading a declaration. */
  ghost predicate ReadsAs(line: string, t: string, rest: string, d: Declaration) {
    && WithoutModifier(Trimmed(line)) == t && After("flow", t) == Some(rest)
    && d.indent == line[..Run(IsSpace, line)] && d.name == rest[..Run(IsWordChar, rest)] && d.name != ""
  }

  lemma FlowOfSteps(line: string, t: string, rest: string, d: Declaration)
    ensures ReadsAs(line, t, rest, d) ==> FlowOf(line) == Some(d)
  {}

  lemma StepsOfFlow(line: string, d: Declaration) returns (t: string, rest: string)
    requires FlowOf(line) == Some(d)
    ensures ReadsAs(line, t, rest, d)
  {
    t := WithoutModifier(Trimmed(line));
    rest := After("flow", t).value;
  }

  lemma WordSplits(rest: string) returns (tail: string)
    requires Run(IsWordChar, rest) > 0
    ensures rest == rest[..Run(IsWordChar, rest)] + tail && IsName(rest[..Run(IsWordChar, rest)]) && (tail != "" ==> !IsWordChar(tail[0]))
  {
    tail := rest[Run(IsWordChar, rest)..];
  }

  lemma ReadDeclares(line: string, d: Declaration)
    requires FlowOf(line) == Some(d)
    ensures Declares(line, d)
  {
    var t, rest := StepsOfFlow(line, d);
    var indent := TrimmedSplits(line);
    var modifier, gap := ModifierSplits(Trimmed(line));
    var space := AfterSplits("flow", t);
    var tail := WordSplits(rest);
    assert line[..|indent|] == indent;
    Regrouped(indent, modifier, gap, space, d.name, tail);
    assert DeclaresAs(line, d, modifier, gap, space, tail);
  }

  lemma Regrouped(indent: string, modifier: string, gap: string, space: string, name: string, tail: string)
    ensures indent + (modifier + gap + ("flow" + space + (name + tail))) == indent + modifier + gap + "flow" + space + name + tail
  {}

  lemma DeclaredIsRead(line: string, d: Declaration)
    requires Declares(line, d)
    ensures FlowOf(line) == Some(d)
  {
    var modifier, gap, space, tail :| DeclaresAs(line, d, modifier, gap, space, tail);
    var rest := d.name + tail;
    var t := "flow" + space + rest;
    var body := modifier + gap + t;
    NameStarts(d.name);
    AfterIs("flow", space, rest);
    ModifierIs(modifier, gap, t);
    BodyStarts(modifier, gap, space, rest);
    Regrouped(d.indent, modifier, gap, space, d.name, tail);
    TrimmedIs(d.indent, body);
    RunIs(IsWordChar, d.name, tail);
    assert rest[..|d.name|] == d.name && line == d.indent + body && line[..|d.indent|] == d.indent;
    FlowOfSteps(line, t, rest, d);
  }

  lemma BodyStarts(modifier: string, gap: string, space: string, rest: string)
    requires IsModifier(modifier, gap)
    ensures var body := modifier + gap + ("flow" + space + rest); body != "" && !IsSpace(body[0])
  {
    var body := modifier + gap + ("flow" + space + rest);
    assert body[0] == if gap == "" then 'f' else modifier[0];
  }

  lemma NameStarts(name: string)
    requires IsName(name)
    ensures !IsSpace(name[0])
  {
    assert IsWordChar(name[0]);
  }

  lemma DeclaringLine(name: string) returns (line: string)
    requires IsName(name)
    ensures FlowOf(line) == Some(Declaration("", name)) && '\n' !in line
  {
    line := "flow" + " " + name;
    NameStarts(name);
    AfterIs("flow", " ", name);
    NothingToTrim(line);
    NoModifier(line);
    RunIs(IsWordChar, name, "");
    assert name + "" == name && name[..|name|] == name && line[..0] == "";
    FlowOfSteps(line, line, name, Declaration("", name));
  }

  lemma NothingToTrim(t: string)
    requires t != "" && !IsSpace(t[0])
    ensures Run(IsSpace, t) == 0 && Trimmed(t) == t
  {}

  lemma NoModifier(t: string)
    requires t != "" && t[0] == 'f'
    ensures WithoutModifier(t) == t
  {}
}

/** Replacing blocks of generated lines above declarations, bottom up, each in place. */
module CommentBlocks {
  import opened Options
  import opened LinePatterns

  /** How two line patterns classify a line. */
  datatype Reader = Reader(flowOf: string -> Option<Declaration>, isGenerated: string -> bool)

  /** For each flow its fresh lines. */
  type Blocks = map<string, seq<string>>

  /** An indent is how its line starts. */
  ghost predicate ReadsIndents(r: Reader) {
    forall l :: r.flowOf(l).Some? ==> r.flowOf(l).value.indent <= l
  }

  /** No line is both, and whatever is put above a declaration is generated. */
  ghost predicate Consistent(r: Reader, gen: Blocks) {
    && (forall l :: r.isGenerated(l) ==> r.flowOf(l).None?)
    && (forall l, i :: Listed(r, gen, l).Some? && 0 <= i < |BlockFor(gen, Listed(r, gen, l).value)| ==>
          r.isGenerated(BlockFor(gen, Listed(r, gen, l).value)[i]))
  }

  function Indented(indent: string, line: string): string {
    indent + line
  }

  /** The flow that a line declares and for which there is a fresh block. */
  function Listed(r: Reader, gen: Blocks, line: string): Option<Declaration> {
    match r.flowOf(line)
    case None => None
    case Some(d) => if d.name in gen then Some(d) else None
  }

  function BlockFor(gen: Blocks, d: Declaration): seq<string>
    requires d.name in gen
  {
    seq(|gen[d.name]|, i requires 0 <= i < |gen[d.name]| => Indented(d.indent, gen[d.name][i]))
  }

  /** Without the run of generated lines at the end. */
  function Strip(r: Reader, lines: seq<string>): (s: seq<string>)
    ensures |s| <= |lines| && s == lines[..|s|]
    ensures s != [] ==> !r.isGenerated(s[|s| - 1])
    ensures forall i :: |s| <= i < |lines| ==> r.isGenerated(lines[i])
  {
    if lines == [] || !r.isGenerated(lines[|lines| - 1]) then lines else Strip(r, lines[..|lines| - 1])
  }

  /** What the lines become. */
  function Rewritten(r: Reader, gen: Blocks, lines: seq<string>): seq<string>
    decreases |lines|
  {
    if lines == [] then []
    else
      var init, last := lines[..|lines| - 1], lines[|lines| - 1];
      match Listed(r, gen, last)
      case None => Rewritten(r, gen, init) + [last]
      case Some(d) => Rewritten(r, gen, Strip(r, init)) + BlockFor(gen, d) + [last]
  }

  /** Where the run of generated lines that ends just above line `i` starts. */
  method FindStart(r: Reader, lines: seq<string>, i: nat) returns (start: nat)
    requires i <= |lines|
    ensures start <= i && Strip(r, lines[..i]) == lines[..start]
  {
    start := i;
    while start > 0 && r.isGenerated(lines[start - 1])
      invariant start <= i && Strip(r, lines[..start]) == Strip(r, lines[..i])
    {
      assert lines[..start][..start - 1] == lines[..start - 1];
      start := start - 1;
    }
  }

  /** The part above `i` still has to be rewritten, the part from `i` on is done. */
  ghost predicate Pending(r: Reader, gen: Blocks, lines: seq<string>, i: nat, goal: seq<string>) {
    i <= |lines| && Rewritten(r, gen, lines[..i]) + lines[i..] == goal
  }

  lemma TailSplits(lines: seq<string>, i: nat)
    requires i < |lines|
    ensures lines[i..] == [lines[i]] + lines[i + 1..] && lines[..i + 1] == lines[..i] + [lines[i]]
  {}

  lemma KeepLine(r: Reader, gen: Blocks, lines: seq<string>, i: nat, goal: seq<string>)
    requires i < |lines| && Pending(r, gen, lines, i + 1, goal) && Listed(r, gen, lines[i]).None?
    ensures Pending(r, gen, lines, i, goal)
  {
    assert lines[..i + 1][..i] == lines[..i];
    assert Rewritten(r, gen, lines[..i + 1]) == Rewritten(r, gen, lines[..i]) + [lines[i]];
    TailSplits(lines, i);
  }

  lemma ReplaceBlock(r: Reader, gen: Blocks, lines: seq<string>, i: nat, goal: seq<string>, d: Declaration, start: nat)
    requires i < |lines| && Pending(r, gen, lines, i + 1, goal) && Listed(r, gen, lines[i]) == Some(d)
    requires start <= i && Strip(r, lines[..i]) == lines[..start]
    ensures Pending(r, gen, lines[..start] + BlockFor(gen, d) + lines[i..], start, goal)
  {
    var next := lines[..start] + BlockFor(gen, d) + lines[i..];
    assert lines[..i + 1][..i] == lines[..i];
    assert Rewritten(r, gen, lines[..i + 1]) == Rewritten(r, gen, lines[..start]) + BlockFor(gen, d) + [lines[i]];
    TailSplits(lines, i);
    assert next[..start] == lines[..start] && next[start..] == BlockFor(gen, d) + lines[i..];
  }

  // ----- What does not change -----

  /** The lines that people wrote. */
  function Written(r: Reader, lines: seq<string>): seq<string> {
    if lines == [] then []
    else Written(r, lines[..|lines| - 1]) + if r.isGenerated(lines[|lines| - 1]) then [] else [lines[|lines| - 1]]
  }

  lemma {:induction false} WrittenJoins(r: Reader, a: seq<string>, b: seq<string>)
    ensures Written(r, a + b) == Written(r, a) + Written(r, b)
  {
    if b == [] { assert a + b == a; } else {
      var k := |b| - 1;
      WrittenJoins(r, a, b[..k]);
      assert (a + b)[..|a + b| - 1] == a + b[..k];
    }
  }

  lemma {:induction false} GeneratedVanish(r: Reader, b: seq<string>)
    requires forall i :: 0 <= i < |b| ==> r.isGenerated(b[i])
    ensures Written(r, b) == []
  {
    if b != [] { GeneratedVanish(r, b[..|b| - 1]); }
  }

  lemma BlockIsGenerated(r: Reader, gen: Blocks, line: string, d: Declaration)
    requires Consistent(r, gen) && Listed(r, gen, line) == Some(d)
    ensures forall i :: 0 <= i < |BlockFor(gen, d)| ==> r.isGenerated(BlockFor(gen, d)[i])
  {
    forall i | 0 <= i < |BlockFor(gen, d)| ensures r.isGenerated(BlockFor(gen, d)[i]) {
      assert Listed(r, gen, line).Some?;
    }
  }

  /** Replacing the generated lines after `kept` by a block leaves what people wrote. */
  lemma BlockLeavesWritten(r: Reader, kept: seq<string>, run: seq<string>, before: seq<string>, block: seq<string>, last: string)
    requires Written(r, before) == Written(r, kept)
    requires (forall i :: 0 <= i < |run| ==> r.isGenerated(run[i])) && forall i :: 0 <= i < |block| ==> r.isGenerated(block[i])
    ensures Written(r, before + block + [last]) == Written(r, kept + run + [last])
  {
    GeneratedVanish(r, block);
    GeneratedVanish(r, run);
    WrittenJoins(r, before, block);
    WrittenJoins(r, before + block, [last]);
    WrittenJoins(r, kept, run);
    WrittenJoins(r, kept + run, [last]);
  }

  /** Whatever people wrote stays, in its order. */
  lemma {:induction false} WrittenLinesStay(r: Reader, gen: Blocks, lines: seq<string>)
    requires Consistent(r, gen)
    ensures Written(r, Rewritten(r, gen, lines)) == Written(r, lines)
    decreases |lines|
  {
    if lines != [] {
      var init, last := lines[..|lines| - 1], lines[|lines| - 1];
      assert init + [last] == lines;
      match Listed(r, gen, last)
      case None =>
        WrittenLinesStay(r, gen, init);
        WrittenJoins(r, Rewritten(r, gen, init), [last]);
        WrittenJoins(r, init, [last]);
      case Some(d) =>
        var kept, block := Strip(r, init), BlockFor(gen, d);
        WrittenLinesStay(r, gen, kept);
        BlockIsGenerated(r, gen, last, d);
        assert kept + init[|kept|..] == init;
        BlockLeavesWritten(r, kept, init[|kept|..], Rewritten(r, gen, kept), block, last);
    }
  }

  /** The line is in a run of generated lines directly above a declaration with a fresh block. */
  ghost predicate Owned(r: Reader, gen: Blocks, lines: seq<string>, i: int) {
    exists j :: OwnedBy(r, gen, lines, i, j)
  }

  ghost predicate OwnedBy(r: Reader, gen: Blocks, lines: seq<string>, i: int, j: int) {
    0 <= i < j < |lines| && Listed(r, gen, lines[j]).Some? && forall k :: i <= k < j ==> r.isGenerated(lines[k])
  }

  /** The first `n` lines without the owned ones. */
  ghost function Others(r: Reader, gen: Blocks, lines: seq<string>, n: nat): seq<string>
    requires n <= |lines|
  {
    if n == 0 then [] else Others(r, gen, lines, n - 1) + if Owned(r, gen, lines, n - 1) then [] else [lines[n - 1]]
  }

  lemma {:induction false} SameOthers(r: Reader, gen: Blocks, a: seq<string>, b: seq<string>, n: nat)
    requires n <= |a| && n <= |b| && forall i :: 0 <= i < n ==> a[i] == b[i] && (Owned(r, gen, a, i) <==> Owned(r, gen, b, i))
    ensures Others(r, gen, a, n) == Others(r, gen, b, n)
  {
    if n > 0 { SameOthers(r, gen, a, b, n - 1); }
  }

  lemma {:induction false} OwnedVanish(r: Reader, gen: Blocks, lines: seq<string>, m: nat, n: nat)
    requires m <= n <= |lines| && forall i :: m <= i < n ==> Owned(r, gen, lines, i)
    ensures Others(r, gen, lines, n) == Others(r, gen, lines, m)
  {
    if m < n { OwnedVanish(r, gen, lines, m, n - 1); }
  }

  /** A run of generated lines and a declaration behind them, or a line that is no listed declaration. */
  ghost predicate Closes(r: Reader, gen: Blocks, a: seq<string>, run: seq<string>, last: string) {
    && (forall k :: 0 <= k < |run| ==> r.isGenerated(run[k]))
    && (if Listed(r, gen, last).Some? then a != [] ==> !r.isGenerated(a[|a| - 1]) else run == [])
  }

  lemma OwnedInFront(r: Reader, gen: Blocks, a: seq<string>, run: seq<string>, last: string, i: int)
    requires (forall l :: r.isGenerated(l) ==> r.flowOf(l).None?) && Closes(r, gen, a, run, last) && 0 <= i < |a|
    ensures Owned(r, gen, a + run + [last], i) <==> Owned(r, gen, a, i)
  {
    var lines := a + run + [last];
    assert forall k :: 0 <= k < |a| ==> lines[k] == a[k];
    assert forall k :: 0 <= k < |run| ==> lines[|a| + k] == run[k];
    assert forall k :: |a| <= k < |a| + |run| ==> r.isGenerated(lines[k]);
    assert lines[|a| - 1] == a[|a| - 1] && lines[|lines| - 1] == last;
    forall j | OwnedBy(r, gen, lines, i, j) ensures OwnedBy(r, gen, a, i, j) { assert j < |a|; }
    forall j | OwnedBy(r, gen, a, i, j) ensures OwnedBy(r, gen, lines, i, j) {}
  }

  lemma OthersOf(r: Reader, gen: Blocks, a: seq<string>, run: seq<string>, last: string)
    requires (forall l :: r.isGenerated(l) ==> r.flowOf(l).None?) && Closes(r, gen, a, run, last)
    ensures var lines := a + run + [last]; Others(r, gen, lines, |lines|) == Others(r, gen, a, |a|) + [last]
  {
    var lines := a + run + [last];
    var k := |lines| - 1;
    forall i | 0 <= i < |a| ensures a[i] == lines[i] && (Owned(r, gen, a, i) <==> Owned(r, gen, lines, i)) {
      OwnedInFront(r, gen, a, run, last, i);
    }
    SameOthers(r, gen, a, lines, |a|);
    forall i | |a| <= i < k ensures Owned(r, gen, lines, i) {
      assert forall m :: i <= m < k ==> lines[m] == run[m - |a|];
      assert OwnedBy(r, gen, lines, i, k);
    }
    OwnedVanish(r, gen, lines, |a|, k);
    assert !Owned(r, gen, lines, k);
  }

  ghost predicate SameButOwned(r: Reader, gen: Blocks, a: seq<string>, b: seq<string>) {
    Others(r, gen, a, |a|) == Others(r, gen, b, |b|)
  }

  lemma SameWithLast(r: Reader, gen: Blocks, a: seq<string>, x: seq<string>, b: seq<string>, y: seq<string>, last: string)
    requires (forall l :: r.isGenerated(l) ==> r.flowOf(l).None?) && SameButOwned(r, gen, a, b)
    requires Closes(r, gen, a, x, last) && Closes(r, gen, b, y, last)
    ensures SameButOwned(r, gen, a + x + [last], b + y + [last])
  {
    OthersOf(r, gen, a, x, last);
    OthersOf(r, gen, b, y, last);
  }

  /** Nothing else is touched: without the runs directly above listed declarations the lines are the same. */
  lemma {:induction false} OthersStay(r: Reader, gen: Blocks, lines: seq<string>)
    requires Consistent(r, gen)
    ensures SameButOwned(r, gen, Rewritten(r, gen, lines), lines)
    decreases |lines|
  {
    if lines != [] {
      var init, last := lines[..|lines| - 1], lines[|lines| - 1];
      match Listed(r, gen, last)
      case None =>
        var before := Rewritten(r, gen, init);
        OthersStay(r, gen, init);
        SameWithLast(r, gen, before, [], init, [], last);
        assert init + [] + [last] == lines && before + [] == before;
      case Some(d) =>
        var kept, block := Strip(r, init), BlockFor(gen, d);
        var run, before := init[|kept|..], Rewritten(r, gen, kept);
        OthersStay(r, gen, kept);
        LastStays(r, gen, kept);
        BlockIsGenerated(r, gen, last, d);
        SameWithLast(r, gen, before, block, kept, run, last);
        assert kept + run + [last] == lines;
    }
  }

  // ----- What stands above each flow -----

  /** Directly above line `j` stands its fresh block and nothing generated above that. */
  ghost predicate BlockAbove(r: Reader, gen: Blocks, lines: seq<string>, j: int)
    requires 0 <= j < |lines|
  {
    match Listed(r, gen, lines[j])
    case None => true
    case Some(d) =>
      var b := BlockFor(gen, d);
      && |b| <= j && lines[j - |b|..j] == b
      && (|b| < j ==> !r.isGenerated(lines[j - |b| - 1]))
  }

  lemma BlockLinesAbove(r: Reader, gen: Blocks, lines: seq<string>, j: int, d: Declaration)
    requires 0 <= j < |lines| && BlockAbove(r, gen, lines, j) && Listed(r, gen, lines[j]) == Some(d)
    ensures var n := |gen[d.name]|;
      && n <= j && (forall k :: 0 <= k < n ==> lines[j - n + k] == d.indent + gen[d.name][k])
      && (n < j ==> !r.isGenerated(lines[j - n - 1]))
  {
    var n, b := |gen[d.name]|, BlockFor(gen, d);
    assert lines[j - n..j] == b;
    forall k | 0 <= k < n ensures lines[j - n + k] == d.indent + gen[d.name][k] { assert lines[j - n..j][k] == b[k]; }
  }

  lemma {:induction false} LastStays(r: Reader, gen: Blocks, lines: seq<string>)
    ensures lines == [] <==> Rewritten(r, gen, lines) == []
    ensures lines != [] ==> Rewritten(r, gen, lines)[|Rewritten(r, gen, lines)| - 1] == lines[|lines| - 1]
  {}

  lemma {:induction false} BlocksAreFresh(r: Reader, gen: Blocks, lines: seq<string>)
    requires Consistent(r, gen)
    ensures forall j :: 0 <= j < |Rewritten(r, gen, lines)| ==> BlockAbove(r, gen, Rewritten(r, gen, lines), j)
    decreases |lines|
  {
    if lines != [] {
      var init, last := lines[..|lines| - 1], lines[|lines| - 1];
      match Listed(r, gen, last)
      case None =>
        BlocksAreFresh(r, gen, init);
        AboveStays(r, gen, Rewritten(r, gen, init), [last]);
      case Some(d) =>
        var kept, block := Strip(r, init), BlockFor(gen, d);
        var before := Rewritten(r, gen, kept);
        BlocksAreFresh(r, gen, kept);
        LastStays(r, gen, kept);
        BlockIsGenerated(r, gen, last, d);
        AboveStays(r, gen, before, block + [last]);
        assert before + block + [last] == before + (block + [last]);
        NoneListed(r, gen, before, block, last);
        BlockIsAbove(r, gen, before, block, last, d);
    }
  }

  lemma AboveStays(r: Reader, gen: Blocks, lines: seq<string>, more: seq<string>)
    requires forall j :: 0 <= j < |lines| ==> BlockAbove(r, gen, lines, j)
    ensures forall j :: 0 <= j < |lines| ==> BlockAbove(r, gen, lines + more, j)
  {
    forall j | 0 <= j < |lines| ensures BlockAbove(r, gen, lines + more, j) {
      assert BlockAbove(r, gen, lines, j) && (lines + more)[j] == lines[j];
      if Listed(r, gen, lines[j]).Some? {
        var b := BlockFor(gen, Listed(r, gen, lines[j]).value);
        assert (lines + more)[j - |b|..j] == lines[j - |b|..j];
      }
    }
  }

  lemma NoneListed(r: Reader, gen: Blocks, before: seq<string>, block: seq<string>, last: string)
    requires Consistent(r, gen) && forall i :: 0 <= i < |block| ==> r.isGenerated(block[i])
    ensures forall j :: |before| <= j < |before| + |block| ==> BlockAbove(r, gen, before + block + [last], j)
  {
    forall j | |before| <= j < |before| + |block| ensures BlockAbove(r, gen, before + block + [last], j) {
      assert (before + block + [last])[j] == block[j - |before|];
      assert r.flowOf(block[j - |before|]).None?;
    }
  }

  lemma BlockIsAbove(r: Reader, gen: Blocks, before: seq<string>, block: seq<string>, last: string, d: Declaration)
    requires Listed(r, gen, last) == Some(d) && block == BlockFor(gen, d) && (before != [] ==> !r.isGenerated(before[|before| - 1]))
    ensures BlockAbove(r, gen, before + block + [last], |before| + |block|)
  {
    assert (before + block + [last])[|before|..|before| + |block|] == block;
  }

  // ----- Once is enough -----

  lemma {:induction false} StripBlock(r: Reader, before: seq<string>, block: seq<string>)
    requires forall i :: 0 <= i < |block| ==> r.isGenerated(block[i])
    requires before != [] ==> !r.isGenerated(before[|before| - 1])
    ensures Strip(r, before + block) == before
    decreases |block|
  {
    if block == [] { assert before + block == before; } else {
      StripBlock(r, before, block[..|block| - 1]);
      assert (before + block)[..|before + block| - 1] == before + block[..|block| - 1];
    }
  }

  /** Rewriting what has been rewritten changes nothing. */
  lemma {:induction false} RewritingIsIdempotent(r: Reader, gen: Blocks, lines: seq<string>)
    requires Consistent(r, gen)
    ensures Rewritten(r, gen, Rewritten(r, gen, lines)) == Rewritten(r, gen, lines)
    decreases |lines|
  {
    if lines != [] {
      var init, last := lines[..|lines| - 1], lines[|lines| - 1];
      var once := Rewritten(r, gen, lines);
      match Listed(r, gen, last)
      case None =>
        RewritingIsIdempotent(r, gen, init);
        assert once[..|once| - 1] == Rewritten(r, gen, init);
      case Some(d) =>
        var kept, block := Strip(r, init), BlockFor(gen, d);
        RewritingIsIdempotent(r, gen, kept);
        LastStays(r, gen, kept);
        BlockIsGenerated(r, gen, last, d);
        StripBlock(r, Rewritten(r, gen, kept), block);
        assert once[..|once| - 1] == Rewritten(r, gen, kept) + block;
    }
  }

  // ----- The text -----

  /** The pieces between line feeds: one more than there are line feeds. */
  function Lines(text: string): (lines: seq<string>)
    ensures lines != [] && forall i :: 0 <= i < |lines| ==> '\n' !in lines[i]
  {
    if text == "" then [""]
    else
      var rest := Lines(text[1..]);
      if text[0] == '\n' then [""] + rest else [[text[0]] + rest[0]] + rest[1..]
  }

  function Joined(lines: seq<string>): string {
    if lines == [] then "" else if |lines| == 1 then lines[0] else lines[0] + "\n" + Joined(lines[1..])
  }

  lemma {:induction false} JoinLines(text: string)
    ensures Joined(Lines(text)) == text
  {
    if text != "" {
      JoinLines(text[1..]);
      var rest, whole := Lines(text[1..]), Lines(text);
      assert text == [text[0]] + text[1..];
      if text[0] == '\n' { assert whole[1..] == rest; } else {
        assert whole[1..] == rest[1..];
        assert |rest| > 1 ==> Joined(rest) == rest[0] + "\n" + Joined(rest[1..]);
      }
    }
  }

  lemma {:induction false} PiecesOf(line: string, rest: string)
    requires '\n' !in line
    ensures Lines(line) == [line] && Lines(line + "\n" + rest) == [line] + Lines(rest)
  {
    var text := line + "\n" + rest;
    if line == "" { assert text[1..] == rest; } else {
      PiecesOf(line[1..], rest);
      assert text[1..] == line[1..] + "\n" + rest && text[0] == line[0];
      assert [line[0]] + line[1..] == line;
    }
  }

  lemma {:induction false} SplitJoined(lines: seq<string>)
    requires lines != [] && forall i :: 0 <= i < |lines| ==> '\n' !in lines[i]
    ensures Lines(Joined(lines)) == lines
  {
    if |lines| == 1 { PiecesOf(lines[0], ""); } else {
      SplitJoined(lines[1..]);
      PiecesOf(lines[0], Joined(lines[1..]));
    }
  }

  function RewrittenText(r: Reader, gen: Blocks, source: string): string {
    Joined(Rewritten(r, gen, Lines(source)))
  }

  method RewriteLines(r: Reader, source: seq<string>, gen: Blocks) returns (lines: seq<string>)
    ensures lines == Rewritten(r, gen, source)
  {
    lines := source;
    var i := |lines|;
    ghost var goal := Rewritten(r, gen, source);
    assert lines[..i] == lines && lines[i..] == [];
    while i > 0
      invariant Pending(r, gen, lines, i, goal)
    {
      i := i - 1;
      var d := Listed(r, gen, lines[i]);
      if d.None? {
        KeepLine(r, gen, lines, i, goal);
        continue;
      }
      var start := FindStart(r, lines, i);
      ReplaceBlock(r, gen, lines, i, goal, d.value, start);
      lines := lines[..start] + BlockFor(gen, d.value) + lines[i..];
      i := start;
    }
  }

  // ----- From text to text -----

  /** No fresh line spans several lines of text. */
  ghost predicate OneLineEach(gen: Blocks) {
    forall name, i :: name in gen && 0 <= i < |gen[name]| ==> '\n' !in gen[name][i]
  }

  lemma {:induction false} RewrittenIsLines(r: Reader, gen: Blocks, lines: seq<string>)
    requires ReadsIndents(r) && OneLineEach(gen) && forall i :: 0 <= i < |lines| ==> '\n' !in lines[i]
    ensures forall i :: 0 <= i < |Rewritten(r, gen, lines)| ==> '\n' !in Rewritten(r, gen, lines)[i]
    decreases |lines|
  {
    if lines != [] {
      var init, last := lines[..|lines| - 1], lines[|lines| - 1];
      match Listed(r, gen, last)
      case None => RewrittenIsLines(r, gen, init);
      case Some(d) =>
        RewrittenIsLines(r, gen, Strip(r, init));
        assert d.indent <= last && '\n' !in last;
        forall i | 0 <= i < |BlockFor(gen, d)| ensures '\n' !in BlockFor(gen, d)[i] {
          assert '\n' !in d.indent && '\n' !in gen[d.name][i];
        }
    }
  }

  lemma LinesOfRewritten(r: Reader, gen: Blocks, source: string)
    requires ReadsIndents(r) && OneLineEach(gen)
    ensures Lines(RewrittenText(r, gen, source)) == Rewritten(r, gen, Lines(source))
  {
    RewrittenIsLines(r, gen, Lines(source));
    LastStays(r, gen, Lines(source));
    SplitJoined(Rewritten(r, gen, Lines(source)));
  }

  /** The rewriting leaves what people wrote in a source. */
  ghost predicate KeepsWritten(r: Reader, gen: Blocks, source: string) {
    Written(r, Lines(RewrittenText(r, gen, source))) == Written(r, Lines(source))
  }

  /** What a rewriting has to do, said of the texts: it keeps what people wrote, puts exactly the fresh
      block above each flow, and done twice it does no more than done once. */
  lemma TextIsSafe(r: Reader, gen: Blocks, source: string)
    requires ReadsIndents(r) && Consistent(r, gen) && OneLineEach(gen)
    ensures var out := RewrittenText(r, gen, source);
      && KeepsWritten(r, gen, source)
      && SameButOwned(r, gen, Lines(out), Lines(source))
      && (forall j :: 0 <= j < |Lines(out)| ==> BlockAbove(r, gen, Lines(out), j))
      && RewrittenText(r, gen, out) == out
  {
    LinesOfRewritten(r, gen, source);
    WrittenLinesStay(r, gen, Lines(source));
    OthersStay(r, gen, Lines(source));
    BlocksAreFresh(r, gen, Lines(source));
    RewritingIsIdempotent(r, gen, Lines(source));
  }

  /** Without a flow that has a block, nothing changes: generated lines that stand elsewhere stay. */
  lemma {:induction false} UnlistedStay(r: Reader, gen: Blocks, lines: seq<string>)
    requires forall i :: 0 <= i < |lines| ==> Listed(r, gen, lines[i]).None?
    ensures Rewritten(r, gen, lines) == lines
  {
    if lines != [] {
      UnlistedStay(r, gen, lines[..|lines| - 1]);
      assert lines[..|lines| - 1] + [lines[|lines| - 1]] == lines;
    }
  }

  lemma UnlistedTextStays(r: Reader, gen: Blocks, source: string)
    requires forall i :: 0 <= i < |Lines(source)| ==> Listed(r, gen, Lines(source)[i]).None?
    ensures RewrittenText(r, gen, source) == source
  {
    UnlistedStay(r, gen, Lines(source));
    JoinLines(source);
  }

  lemma {:induction false} NothingWritten(r: Reader, b: seq<string>)
    requires Written(r, b) == []
    ensures forall i :: 0 <= i < |b| ==> r.isGenerated(b[i])
  {
    if b != [] { NothingWritten(r, b[..|b| - 1]); }
  }

  /** If people's lines stay in a source that only declares `name`, then the block of `name` is generated. */
  lemma BlockShows(r: Reader, gen: Blocks, name: string, line: string)
    requires ReadsIndents(r) && OneLineEach(gen) && name in gen
    requires r.flowOf(line) == Some(Declaration("", name)) && '\n' !in line
    requires KeepsWritten(r, gen, line)
    ensures forall i :: 0 <= i < |gen[name]| ==> r.isGenerated(gen[name][i])
  {
    PiecesOf(line, "");
    LinesOfRewritten(r, gen, line);
    assert [line][..0] == [] && Strip(r, []) == [];
    forall i | 0 <= i < |gen[name]| ensures BlockFor(gen, Declaration("", name))[i] == gen[name][i] {
      assert Indented("", gen[name][i]) == gen[name][i];
    }
    assert BlockFor(gen, Declaration("", name)) == gen[name];
    assert Rewritten(r, gen, [line]) == gen[name] + [line];
    WrittenJoins(r, gen[name], [line]);
    NothingWritten(r, gen[name]);
  }
}

/** Rewriting the generated comment blocks above flows (`flow-dependency-analysis.ts`). */
module GeneratedComments {
  import opened Options
  import opened DigitText
  import opened LinePatterns
  import opened CommentBlocks
  import FlowDependencies

  const FUNGI := Reader(FlowOf, IsGenerated)

  lemma FungiReadsIndents()
    ensures ReadsIndents(FUNGI)
  {
    forall l | FlowOf(l).Some? ensures FlowOf(l).value.indent <= l { DeclarationShape(l); }
  }

  /** Every line of every block is a generated line; blocks under what is no name are never asked for. */
  ghost predicate Fresh(gen: Blocks) {
    forall name, i :: name in gen && IsName(name) && 0 <= i < |gen[name]| ==> IsGenerated(gen[name][i])
  }

  lemma FreshIsConsistent(gen: Blocks)
    requires Fresh(gen)
    ensures Consistent(FUNGI, gen)
  {
    forall l | IsGenerated(l) ensures FlowOf(l).None? { GeneratedDeclaresNothing(l); }
    forall l, i | Listed(FUNGI, gen, l).Some? && 0 <= i < |BlockFor(gen, Listed(FUNGI, gen, l).value)|
      ensures IsGenerated(BlockFor(gen, Listed(FUNGI, gen, l).value)[i])
    {
      var d := FlowOf(l).value;
      DeclarationShape(l);
      IndentedTrims(d.indent, gen[d.name][i]);
    }
  }

  method RewriteGeneratedComments(source: string, gen: Blocks) returns (out: string)
    ensures out == RewrittenText(FUNGI, gen, source)
  {
    var lines := RewriteLines(FUNGI, Lines(source), gen);
    out := Joined(lines);
  }

  /** Directly above the declaration stand the fresh lines of its flow, indented like it, and nothing
      generated above them. */
  ghost predicate FreshAbove(gen: Blocks, lines: seq<string>, j: int, d: Declaration)
    requires 0 <= j < |lines| && d.name in gen
  {
    var n := |gen[d.name]|;
    && n <= j && (forall k :: 0 <= k < n ==> lines[j - n + k] == d.indent + gen[d.name][k])
    && (n < j ==> !IsGenerated(lines[j - n - 1]))
  }

  lemma DeclaredIsListed(gen: Blocks, line: string, d: Declaration)
    requires Declares(line, d) && d.name in gen
    ensures Listed(FUNGI, gen, line) == Some(d)
  {
    DeclarationMeans(line, d);
  }

  lemma AboveIsFresh(gen: Blocks, lines: seq<string>, j: int, d: Declaration)
    requires 0 <= j < |lines| && BlockAbove(FUNGI, gen, lines, j) && Listed(FUNGI, gen, lines[j]) == Some(d)
    ensures FreshAbove(gen, lines, j, d)
  {
    BlockLinesAbove(FUNGI, gen, lines, j, d);
  }

  /** Done with fresh blocks, a rewriting keeps what people wrote, puts exactly the fresh block above
      each flow and nothing generated above that, and done again it changes nothing. */
  lemma RewritingIsSafe(gen: Blocks, source: string)
    requires Fresh(gen) && OneLineEach(gen)
    ensures var out := RewrittenText(FUNGI, gen, source);
      && KeepsWritten(FUNGI, gen, source)
      && SameButOwned(FUNGI, gen, Lines(out), Lines(source))
      && (forall j, d :: 0 <= j < |Lines(out)| && Declares(Lines(out)[j], d) && d.name in gen ==> FreshAbove(gen, Lines(out), j, d))
      && RewrittenText(FUNGI, gen, out) == out
  {
    FungiReadsIndents();
    FreshIsConsistent(gen);
    TextIsSafe(FUNGI, gen, source);
    var lines := Lines(RewrittenText(FUNGI, gen, source));
    forall j, d | 0 <= j < |lines| && Declares(lines[j], d) && d.name in gen ensures FreshAbove(gen, lines, j, d) {
      DeclaredIsListed(gen, lines[j], d);
      AboveIsFresh(gen, lines, j, d);
    }
  }

  /** Exactly the fresh blocks leave all that people wrote as it was, whatever the source. */
  lemma OnlyFreshBlocksAreSafe(gen: Blocks)
    requires OneLineEach(gen)
    ensures (forall source :: KeepsWritten(FUNGI, gen, source)) <==> Fresh(gen)
  {
    FungiReadsIndents();
    if Fresh(gen) {
      forall source ensures KeepsWritten(FUNGI, gen, source) { RewritingIsSafe(gen, source); }
    }
    if forall source :: KeepsWritten(FUNGI, gen, source) {
      forall name | name in gen && IsName(name) ensures forall i :: 0 <= i < |gen[name]| ==> IsGenerated(gen[name][i]) {
        var line := DeclaringLine(name);
        BlockShows(FUNGI, gen, name, line);
      }
    }
  }

  // ----- What the lines say -----

  function Listing(names: seq<string>): string {
    if names == [] then "" else if |names| == 1 then names[0] else names[0] + ", " + Listing(names[1..])
  }

  function Counted(tag: string, names: seq<string>): seq<string> {
    if names == [] then [] else [MARK + " " + tag + ": (" + NatName(|names|) + ") " + Listing(names)]
  }

  function RenderDependencyComments(d: FlowDependencies.Dependencies): seq<string> {
    Counted("USES", d.uses) + Counted("USEDBY", d.usedBy) + [ImpactLine(d.impact)]
  }

  function RenderComplexityComment(complexity: nat): seq<string> {
    if complexity <= 1 then []
    else [MARK + " COMPLEXITY: " + NatName(complexity) + if complexity >= 10 then " (high \U{2014} consider decomposing)" else ""]
  }

  /** The blocks as the command line builds them. */
  function RenderedBlocks(deps: map<string, FlowDependencies.Dependencies>, complexity: map<string, nat>): Blocks {
    map name | name in deps :: RenderDependencyComments(deps[name])
      + if name in complexity then RenderComplexityComment(complexity[name]) else []
  }

  lemma MarkedIsGenerated(line: string)
    requires MARK <= line
    ensures IsGenerated(line)
  {
    assert line[0] == MARK[0];
  }

  ghost predicate OneLineNames(names: seq<string>) {
    forall i :: 0 <= i < |names| ==> '\n' !in names[i]
  }

  lemma {:induction false} ListingIsOneLine(names: seq<string>)
    requires OneLineNames(names)
    ensures '\n' !in Listing(names)
  {
    if |names| > 1 { ListingIsOneLine(names[1..]); }
  }

  lemma NumberIsOneLine(n: nat)
    ensures '\n' !in NatName(n)
  {
    DigitsRoundTrip(n);
  }

  lemma RenderedLine(d: FlowDependencies.Dependencies, line: string)
    requires OneLineNames(d.uses) && OneLineNames(d.usedBy) && line in RenderDependencyComments(d)
    ensures MARK <= line && '\n' !in line
  {
    ListingIsOneLine(d.uses);
    ListingIsOneLine(d.usedBy);
    NumberIsOneLine(|d.uses|);
    NumberIsOneLine(|d.usedBy|);
    NumberIsOneLine(d.impact);
  }

  lemma ComplexityLine(complexity: nat, line: string)
    requires line in RenderComplexityComment(complexity)
    ensures MARK <= line && '\n' !in line
  {
    NumberIsOneLine(complexity);
  }

  /** Rendered blocks are fresh and of one line each: the rewriting with them is safe. */
  lemma RenderedBlocksAreFresh(deps: map<string, FlowDependencies.Dependencies>, complexity: map<string, nat>)
    requires forall name :: name in deps ==> OneLineNames(deps[name].uses) && OneLineNames(deps[name].usedBy)
    ensures Fresh(RenderedBlocks(deps, complexity)) && OneLineEach(RenderedBlocks(deps, complexity))
  {
    var gen := RenderedBlocks(deps, complexity);
    forall name, i | name in gen && 0 <= i < |gen[name]| ensures IsGenerated(gen[name][i]) && '\n' !in gen[name][i] {
      var line := gen[name][i];
      if line in RenderDependencyComments(deps[name]) { RenderedLine(deps[name], line); } else { ComplexityLine(complexity[name], line); }
      MarkedIsGenerated(line);
    }
  }

  /** The names with a comma and a space between them. */
  ghost predicate IsList(names: seq<string>, t: string) {
    if names == [] then t == ""
    else if |names| == 1 then t == names[0]
    else exists rest :: t == names[0] + ", " + rest && IsList(names[1..], rest)
  }

  lemma {:induction false} ListingIsList(names: seq<string>)
    ensures IsList(names, Listing(names))
  {
    if |names| > 1 { ListingIsList(names[1..]); }
  }

  /** A count in parentheses and the names counted. */
  ghost predicate IsCounted(line: string, front: string, names: seq<string>) {
    exists d, l :: IsDecimal(d, |names|) && IsList(names, l) && line == front + " (" + d + ") " + l
  }

  lemma CountedIs(tag: string, names: seq<string>, front: string)
    requires front == "//fungi: " + tag + ":"
    ensures if names == [] then Counted(tag, names) == [] else |Counted(tag, names)| == 1 && IsCounted(Counted(tag, names)[0], front, names)
  {
    if names != [] {
      NatNameIsDecimal(|names|);
      ListingIsList(names);
      assert Counted(tag, names)[0] == front + " (" + NatName(|names|) + ") " + Listing(names);
    }
  }

  /** The number of flows that reach the flow; none makes it safe to delete. */
  ghost predicate IsImpact(line: string, impact: nat) {
    if impact == 0 then line == "//fungi: IMPACT: (0) \U{2014} safe to delete"
    else exists t :: IsDecimal(t, impact) && line == "//fungi: IMPACT: (" + t + ")"
  }

  function ImpactLine(impact: nat): string {
    MARK + if impact == 0 then " IMPACT: (0) \U{2014} safe to delete" else " IMPACT: (" + NatName(impact) + ")"
  }

  lemma ImpactIs(impact: nat)
    ensures IsImpact(ImpactLine(impact), impact)
  {
    NatNameIsDecimal(impact);
    assert MARK + (" IMPACT: (" + NatName(impact) + ")") == "//fungi: IMPACT: (" + NatName(impact) + ")";
    assert MARK + " IMPACT: (0) \U{2014} safe to delete" == "//fungi: IMPACT: (0) \U{2014} safe to delete";
  }

  /** What the rendered lines say: the uses, if any; the users, if any; and always the impact. */
  lemma RenderedLines(d: FlowDependencies.Dependencies)
    ensures var lines := RenderDependencyComments(d);
      var u, v := (if d.uses == [] then 0 else 1), (if d.usedBy == [] then 0 else 1);
      && |lines| == u + v + 1
      && (u == 1 ==> IsCounted(lines[0], "//fungi: USES:", d.uses))
      && (v == 1 ==> IsCounted(lines[u], "//fungi: USEDBY:", d.usedBy))
      && IsImpact(lines[u + v], d.impact)
  {
    CountedIs("USES", d.uses, "//fungi: USES:");
    CountedIs("USEDBY", d.usedBy, "//fungi: USEDBY:");
    ImpactIs(d.impact);
    assert RenderDependencyComments(d) == Counted("USES", d.uses) + Counted("USEDBY", d.usedBy) + [ImpactLine(d.impact)];
  }

  /** How many branches there are, with an advice from ten on. */
  ghost predicate IsComplexity(line: string, complexity: nat) {
    exists d :: IsDecimal(d, complexity)
      && line == "//fungi: COMPLEXITY: " + d + if complexity >= 10 then " (high \U{2014} consider decomposing)" else ""
  }

  /** A straight flow says nothing about its complexity. */
  lemma RenderedComplexity(complexity: nat)
    ensures complexity <= 1 ==> RenderComplexityComment(complexity) == []
    ensures complexity > 1 ==> |RenderComplexityComment(complexity)| == 1 && IsComplexity(RenderComplexityComment(complexity)[0], complexity)
  {
    NatNameIsDecimal(complexity);
    assert MARK + " COMPLEXITY: " == "//fungi: COMPLEXITY: ";
  }
}
