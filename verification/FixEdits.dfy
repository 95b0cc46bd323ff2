/** Applying machine-made edits to a source text (`fix-edit.ts`): one by one from the end backwards, and
    the proof that this is substituting them all at once. */
module FixEdits {
  import opened CodeUnitOrder

  /** Columns count from 1; the span is from `column` up to, not including, `endColumn`. */
  datatype FixEdit = FixEdit(line: int, column: int, endColumn: int, replacement: string)

  predicate Overlaps(a: FixEdit, b: FixEdit) {
    a.line == b.line && a.column < b.endColumn && b.column < a.endColumn
  }

  // ----- Lines and their terminators -----

  datatype Split = Split(lines: seq<string>, seps: seq<string>)

  /** The lines without their terminators, and the terminators: one fewer. */
  function SplitLines(s: string): (r: Split)
    ensures |r.lines| == |r.seps| + 1
  {
    if s == [] then Split([""], [])
    else if s[0] == '\n' then
      var rest := SplitLines(s[1..]);
      Split([""] + rest.lines, ["\n"] + rest.seps)
    else if s[0] == '\r' && |s| > 1 && s[1] == '\n' then
      var rest := SplitLines(s[2..]);
      Split([""] + rest.lines, ["\r\n"] + rest.seps)
    else
      var rest := SplitLines(s[1..]);
      Split([[s[0]] + rest.lines[0]] + rest.lines[1..], rest.seps)
  }

  /** Lines hold no line feed; each terminator is a line feed, with the carriage return before it if there
      is one. */
  ghost predicate IsSplit(r: Split) {
    && |r.lines| == |r.seps| + 1
    && (forall i :: 0 <= i < |r.lines| ==> '\n' !in r.lines[i])
    && (forall i :: 0 <= i < |r.seps| ==> r.seps[i] == "\r\n" || (r.seps[i] == "\n" && !EndsInReturn(r.lines[i])))
  }

  ghost predicate EndsInReturn(line: string) {
    line != "" && line[|line| - 1] == '\r'
  }

  lemma NothingBeforeFeed(s: string)
    ensures var r := SplitLines(s); r.seps != [] && r.seps[0] == "\n" && r.lines[0] == "" ==> s != "" && s[0] == '\n'
  {}

  /** One character more in the first line. */
  lemma PrefixIsSplit(c: char, r: Split)
    requires IsSplit(r) && c != '\n' && (c == '\r' && r.seps != [] && r.seps[0] == "\n" ==> r.lines[0] != "")
    ensures IsSplit(Split([[c] + r.lines[0]] + r.lines[1..], r.seps))
  {
    var longer := Split([[c] + r.lines[0]] + r.lines[1..], r.seps);
    forall i | 0 <= i < |longer.lines| ensures '\n' !in longer.lines[i] { assert '\n' !in r.lines[i]; }
    forall i | 0 <= i < |r.seps| ensures r.seps[i] == "\r\n" || (r.seps[i] == "\n" && !EndsInReturn(longer.lines[i])) {
      assert i == 0 && r.lines[0] != "" ==> longer.lines[0][|longer.lines[0]| - 1] == r.lines[0][|r.lines[0]| - 1];
    }
  }

  lemma NewLineIsSplit(sep: string, r: Split)
    requires IsSplit(r) && (sep == "\n" || sep == "\r\n")
    ensures IsSplit(Split([""] + r.lines, [sep] + r.seps))
  {}

  /** With JoinSplit this leaves only one way to split a text. */
  lemma {:induction false} SplitIs(s: string)
    ensures IsSplit(SplitLines(s))
    decreases |s|
  {
    if s != "" {
      var k := if s[0] == '\r' && |s| > 1 && s[1] == '\n' then 2 else 1;
      SplitIs(s[k..]);
      NothingBeforeFeed(s[k..]);
      if s[0] == '\n' { NewLineIsSplit("\n", SplitLines(s[1..])); }
      else if k == 2 { NewLineIsSplit("\r\n", SplitLines(s[2..])); }
      else { PrefixIsSplit(s[0], SplitLines(s[1..])); }
    }
  }

  function JoinLines(lines: seq<string>, seps: seq<string>): string
    requires |lines| == |seps| + 1
  {
    if seps == [] then lines[0] else lines[0] + seps[0] + JoinLines(lines[1..], seps[1..])
  }

  /** Splitting loses nothing. */
  lemma {:induction false} JoinSplit(s: string)
    ensures JoinLines(SplitLines(s).lines, SplitLines(s).seps) == s
    decreases |s|
  {
    if s != [] {
      var k := if s[0] == '\r' && |s| > 1 && s[1] == '\n' then 2 else 1;
      JoinSplit(s[k..]);
      var rest, whole := SplitLines(s[k..]), SplitLines(s);
      if s[0] == '\n' || k == 2 {
        assert whole.lines[1..] == rest.lines && whole.seps[1..] == rest.seps;
        assert s == s[..k] + s[k..];
      } else {
        JoinPrefix(s[0], rest.lines, rest.seps);
        assert s == [s[0]] + s[1..];
      }
    }
  }

  lemma JoinPrefix(c: char, lines: seq<string>, seps: seq<string>)
    requires |lines| == |seps| + 1
    ensures JoinLines([[c] + lines[0]] + lines[1..], seps) == [c] + JoinLines(lines, seps)
  {
    var longer := [[c] + lines[0]] + lines[1..];
    assert longer[1..] == lines[1..];
  }

  method Rejoin(lines: seq<string>, seps: seq<string>) returns (out: string)
    requires |lines| == |seps| + 1
    ensures out == JoinLines(lines, seps)
  {
    out := "";
    assert lines[0..] == lines && seps[0..] == seps;
    for i := 0 to |seps|
      invariant out + JoinLines(lines[i..], seps[i..]) == JoinLines(lines, seps)
    {
      assert lines[i..][1..] == lines[i + 1..] && seps[i..][1..] == seps[i + 1..];
      out := out + lines[i];
      out := out + seps[i];
    }
    out := out + lines[|seps|];
  }

  // ----- Substituting edits all at once -----

  ghost predicate InRange(lines: seq<string>, e: FixEdit) {
    && 1 <= e.line <= |lines|
    && 1 <= e.column <= e.endColumn <= |lines[e.line - 1]| + 1
  }

  /** What the edits of line `l` (from 0) put before its character `p`: of several, the last one in front. */
  ghost function PutAt(es: seq<FixEdit>, l: int, p: int): string {
    if es == [] then ""
    else
      var e := es[|es| - 1];
      (if e.line - 1 == l && e.column - 1 == p then e.replacement else "") + PutAt(es[..|es| - 1], l, p)
  }

  ghost predicate Covers(e: FixEdit, l: int, p: int) {
    e.line - 1 == l && e.column - 1 <= p < e.endColumn - 1
  }

  ghost predicate Covered(es: seq<FixEdit>, l: int, p: int) {
    exists e :: e in es && Covers(e, l, p)
  }

  /** What stands for the character at `p`: what is put before it, and itself unless a span covers it. */
  ghost function Here(text: string, es: seq<FixEdit>, l: int, p: nat): string {
    PutAt(es, l, p) + if p < |text| && !Covered(es, l, p) then [text[p]] else ""
  }

  /** The line from its character `p` on with all edits substituted, read off the original text. */
  ghost function Substituted(text: string, es: seq<FixEdit>, l: int, p: nat): string
    requires p <= |text|
    decreases |text| - p
  {
    Here(text, es, l, p) + if p == |text| then "" else Substituted(text, es, l, p + 1)
  }

  /** Slicing as the source does it: positions beyond the end are cut back to it. */
  function Splice(text: string, e: FixEdit): string
    requires 1 <= e.column <= e.endColumn
  {
    var c := if e.column - 1 <= |text| then e.column - 1 else |text|;
    var d := if e.endColumn - 1 <= |text| then e.endColumn - 1 else |text|;
    text[..c] + e.replacement + text[d..]
  }

  lemma {:induction false} NothingPut(es: seq<FixEdit>, l: int, p: int)
    requires forall e :: e in es && e.line - 1 == l ==> e.column - 1 != p
    ensures PutAt(es, l, p) == ""
  {
    if es != [] {
      var k := |es| - 1;
      assert es[k] in es && forall e :: e in es[..k] ==> e in es;
      NothingPut(es[..k], l, p);
      assert PutAt(es, l, p) == "" + PutAt(es[..k], l, p);
    }
  }

  lemma HereUntouched(text: string, es: seq<FixEdit>, l: int, p: nat)
    requires p < |text| && forall e :: e in es && e.line - 1 == l ==> p < e.column - 1
    ensures Here(text, es, l, p) == [text[p]]
  {
    NothingPut(es, l, p);
    assert !Covered(es, l, p);
  }

  lemma Pieces(a: string, b: string, c: string)
    ensures a + (b + c) == (a + b) + c
  {}

  lemma CopyOne(text: string, p: nat, d: nat, rest: string)
    requires p < d <= |text|
    ensures [text[p]] + (text[p + 1..d] + rest) == text[p..d] + rest
  {
    assert text[p..d] == [text[p]] + text[p + 1..d];
  }

  /** Before the first edit of the line nothing changes. */
  lemma {:induction false} Untouched(text: string, es: seq<FixEdit>, l: int, p: nat, d: nat)
    requires p <= d <= |text| && forall e :: e in es && e.line - 1 == l ==> d <= e.column - 1
    ensures Substituted(text, es, l, p) == text[p..d] + Substituted(text, es, l, d)
    decreases d - p
  {
    if p < d {
      HereUntouched(text, es, l, p);
      Untouched(text, es, l, p + 1, d);
      CopyOne(text, p, d, Substituted(text, es, l, d));
    }
  }

  lemma UntouchedFront(text: string, es: seq<FixEdit>, l: int, d: nat)
    requires d <= |text| && forall e :: e in es && e.line - 1 == l ==> d <= e.column - 1
    ensures Substituted(text, es, l, 0) == text[..d] + Substituted(text, es, l, d)
  {
    Untouched(text, es, l, 0, d);
    assert text[0..d] == text[..d];
  }

  lemma PutMore(es: seq<FixEdit>, e: FixEdit, l: int, p: int)
    ensures PutAt(es + [e], l, p) == (if e.line - 1 == l && e.column - 1 == p then e.replacement else "") + PutAt(es, l, p)
  {
    assert (es + [e])[..|es|] == es;
  }

  lemma CoverMore(es: seq<FixEdit>, e: FixEdit, l: int, p: int)
    ensures Covered(es + [e], l, p) <==> Covers(e, l, p) || Covered(es, l, p)
  {
    if Covers(e, l, p) { assert e in es + [e]; }
    if Covered(es, l, p) { var v :| v in es && Covers(v, l, p); assert v in es + [e]; }
  }

  lemma HereAway(text: string, es: seq<FixEdit>, e: FixEdit, l: int, p: nat)
    requires e.line - 1 == l ==> e.column - 1 < p && e.endColumn - 1 <= p
    ensures Here(text, es + [e], l, p) == Here(text, es, l, p)
  {
    PutMore(es, e, l, p);
    CoverMore(es, e, l, p);
    assert "" + PutAt(es, l, p) == PutAt(es, l, p);
  }

  lemma HereWithin(text: string, es: seq<FixEdit>, e: FixEdit, l: int, p: nat)
    requires e.line - 1 == l && e.column - 1 < p < e.endColumn - 1
    requires forall v :: v in es && v.line - 1 == l ==> e.endColumn <= v.column
    ensures Here(text, es + [e], l, p) == ""
  {
    PutMore(es, e, l, p);
    NothingPut(es, l, p);
    CoverMore(es, e, l, p);
  }

  lemma HereAtStart(text: string, es: seq<FixEdit>, e: FixEdit, l: int)
    requires e.line - 1 == l && 1 <= e.column <= e.endColumn
    requires forall v :: v in es && v.line - 1 == l ==> e.endColumn <= v.column
    ensures Here(text, es + [e], l, e.column - 1) ==
      e.replacement + if e.column == e.endColumn then Here(text, es, l, e.column - 1) else ""
  {
    var c := e.column - 1;
    PutMore(es, e, l, c);
    CoverMore(es, e, l, c);
    if e.column < e.endColumn {
      NothingPut(es, l, c);
    } else {
      assert Covered(es + [e], l, c) == Covered(es, l, c);
    }
  }

  /** Behind an edit nothing changes, nor on another line. */
  lemma {:induction false} Behind(text: string, es: seq<FixEdit>, e: FixEdit, l: int, p: nat)
    requires p <= |text| && (e.line - 1 == l ==> e.column - 1 < p && e.endColumn - 1 <= p)
    ensures Substituted(text, es + [e], l, p) == Substituted(text, es, l, p)
    decreases |text| - p
  {
    HereAway(text, es, e, l, p);
    if p < |text| { Behind(text, es, e, l, p + 1); }
  }

  /** Within its span everything goes. */
  lemma {:induction false} Within(text: string, es: seq<FixEdit>, e: FixEdit, l: int, p: nat)
    requires e.line - 1 == l && e.column - 1 < p <= e.endColumn - 1 <= |text|
    requires forall v :: v in es && v.line - 1 == l ==> e.endColumn <= v.column
    ensures Substituted(text, es + [e], l, p) == Substituted(text, es, l, e.endColumn - 1)
    decreases |text| - p
  {
    if p == e.endColumn - 1 {
      Behind(text, es, e, l, p);
    } else {
      HereWithin(text, es, e, l, p);
      Within(text, es, e, l, p + 1);
    }
  }

  lemma AtSpan(text: string, es: seq<FixEdit>, e: FixEdit, l: int)
    requires e.line - 1 == l && 1 <= e.column < e.endColumn <= |text| + 1
    requires forall v :: v in es && v.line - 1 == l ==> e.endColumn <= v.column
    ensures Substituted(text, es + [e], l, e.column - 1) == e.replacement + Substituted(text, es, l, e.endColumn - 1)
  {
    HereAtStart(text, es, e, l);
    Within(text, es, e, l, e.column);
    assert e.replacement + "" == e.replacement;
  }

  lemma AtInsertion(text: string, es: seq<FixEdit>, e: FixEdit, l: int)
    requires e.line - 1 == l && 1 <= e.column == e.endColumn <= |text| + 1
    requires forall v :: v in es && v.line - 1 == l ==> e.endColumn <= v.column
    ensures Substituted(text, es + [e], l, e.column - 1) == e.replacement + Substituted(text, es, l, e.endColumn - 1)
  {
    var c := e.column - 1;
    HereAtStart(text, es, e, l);
    var rest := if c == |text| then "" else Substituted(text, es, l, c + 1);
    if c < |text| { Behind(text, es, e, l, c + 1); }
    Pieces(e.replacement, Here(text, es, l, c), rest);
  }

  lemma SpliceJoined(text: string, rest: string, e: FixEdit)
    requires 1 <= e.column <= e.endColumn <= |text| + 1
    ensures text[..e.column - 1] + (e.replacement + rest) == Splice(text[..e.endColumn - 1] + rest, e)
  {}

  lemma BeforeStart(text: string, es: seq<FixEdit>, e: FixEdit, l: int)
    requires e.line - 1 == l && 1 <= e.column <= e.endColumn <= |text| + 1
    requires forall v :: v in es && v.line - 1 == l ==> e.endColumn <= v.column
    ensures Substituted(text, es + [e], l, 0) == text[..e.column - 1] + Substituted(text, es + [e], l, e.column - 1)
  {
    forall v | v in es + [e] && v.line - 1 == l ensures e.column - 1 <= v.column - 1 {}
    UntouchedFront(text, es + [e], l, e.column - 1);
  }

  lemma AtStart(text: string, es: seq<FixEdit>, e: FixEdit, l: int)
    requires e.line - 1 == l && 1 <= e.column <= e.endColumn <= |text| + 1
    requires forall v :: v in es && v.line - 1 == l ==> e.endColumn <= v.column
    ensures Substituted(text, es + [e], l, e.column - 1) == e.replacement + Substituted(text, es, l, e.endColumn - 1)
  {
    if e.column < e.endColumn { AtSpan(text, es, e, l); } else { AtInsertion(text, es, e, l); }
  }

  /** One more edit before all the others of its line: splice it into what the others give. */
  lemma OneMore(text: string, es: seq<FixEdit>, e: FixEdit, l: int)
    requires e.line - 1 == l && 1 <= e.column <= e.endColumn <= |text| + 1
    requires forall v :: v in es && v.line - 1 == l ==> e.endColumn <= v.column
    ensures Substituted(text, es + [e], l, 0) == Splice(Substituted(text, es, l, 0), e)
  {
    UntouchedFront(text, es, l, e.endColumn - 1);
    BeforeStart(text, es, e, l);
    AtStart(text, es, e, l);
    SpliceJoined(text, Substituted(text, es, l, e.endColumn - 1), e);
  }

  // ----- Accepting edits -----

  /** From the last position backwards. */
  predicate Later(a: FixEdit, b: FixEdit) {
    a.line > b.line || (a.line == b.line && a.column >= b.column)
  }

  lemma LaterIsPreorder()
    ensures TotalPreorder(Later)
  {}

  ghost predicate Shares(a: FixEdit, b: FixEdit, c: int) {
    a.column <= c < a.endColumn && b.column <= c < b.endColumn
  }

  /** Two non-empty spans overlap when they share a column of a line. */
  lemma OverlapMeans(a: FixEdit, b: FixEdit)
    requires a.column < a.endColumn && b.column < b.endColumn
    ensures Overlaps(a, b) <==> a.line == b.line && exists c :: Shares(a, b, c)
  {
    if Overlaps(a, b) { assert Shares(a, b, if a.column <= b.column then b.column else a.column); }
  }

  /** An empty span overlaps a span that it stands strictly inside. */
  lemma EmptyOverlapMeans(a: FixEdit, b: FixEdit)
    requires a.column == a.endColumn
    ensures Overlaps(a, b) <==> a.line == b.line && b.column < a.column < b.endColumn
    ensures Overlaps(b, a) <==> Overlaps(a, b)
  {}

  predicate Clashes(accepted: seq<FixEdit>, e: FixEdit) {
    exists i :: 0 <= i < |accepted| && Overlaps(accepted[i], e)
  }

  /** The edits at some places, as they come. */
  ghost predicate Picks(es: seq<FixEdit>, places: seq<nat>, picked: seq<FixEdit>) {
    |picked| == |places| && forall j :: 0 <= j < |places| ==> places[j] < |es| && picked[j] == es[places[j]]
  }

  ghost predicate Accepted(lines: seq<string>, accepted: seq<FixEdit>) {
    && (forall e :: e in accepted ==> InRange(lines, e))
    && (forall i, j :: 0 <= i < j < |accepted| ==> !Overlaps(accepted[i], accepted[j]))
  }

  ghost predicate Increasing(places: seq<nat>) {
    forall i, j :: 0 <= i < j < |places| ==> places[i] < places[j]
  }

  /** The edit at `i` overlaps one that was picked before. */
  ghost predicate Beaten(es: seq<FixEdit>, places: seq<nat>, i: nat)
    requires i < |es|
  {
    exists j :: 0 <= j < |places| && places[j] < i && Overlaps(es[places[j]], es[i])
  }

  /** Exactly the edits that are in range and overlap none accepted before. */
  ghost predicate Greedy(lines: seq<string>, es: seq<FixEdit>, n: nat, places: seq<nat>) {
    && (forall k :: k in places ==> k < n <= |es|)
    && forall i: nat :: i < n <= |es| ==> i in places || !InRange(lines, es[i]) || Beaten(es, places, i)
  }

  lemma GreedyGoesOn(lines: seq<string>, es: seq<FixEdit>, n: nat, places: seq<nat>, more: seq<nat>)
    requires n < |es| && Greedy(lines, es, n, places) && (more == places || more == places + [n])
    requires n in more || !InRange(lines, es[n]) || Beaten(es, places, n)
    ensures Greedy(lines, es, n + 1, more)
  {
    forall i: nat | i < n + 1 ensures i in more || !InRange(lines, es[i]) || Beaten(es, more, i) {
      if Beaten(es, places, i) {
        var j :| 0 <= j < |places| && places[j] < i && Overlaps(es[places[j]], es[i]);
        assert more[j] == places[j];
      }
    }
  }

  method AcceptEdits(lines: seq<string>, sorted: seq<FixEdit>) returns (accepted: seq<FixEdit>, skipped: nat, ghost places: seq<nat>)
    ensures Accepted(lines, accepted) && |accepted| + skipped == |sorted|
    ensures Picks(sorted, places, accepted) && Increasing(places) && Greedy(lines, sorted, |sorted|, places)
  {
    accepted, skipped, places := [], 0, [];
    for i := 0 to |sorted|
      invariant Accepted(lines, accepted) && |accepted| + skipped == i
      invariant Picks(sorted, places, accepted) && Increasing(places) && Greedy(lines, sorted, i, places)
    {
      var e := sorted[i];
      ghost var before := places;
      var li := e.line - 1;
      var ok := 0 <= li < |lines| && e.column >= 1 && e.endColumn >= e.column && e.endColumn - 1 <= |lines[li]|;
      if !ok || Clashes(accepted, e) {
        if ok { ClashIsBeaten(sorted, places, accepted, i); }
        skipped := skipped + 1;
      } else {
        PickOneMore(lines, sorted, places, accepted, i);
        accepted := accepted + [e];
        places := places + [i];
      }
      GreedyGoesOn(lines, sorted, i, before, places);
    }
  }

  lemma ClashIsBeaten(es: seq<FixEdit>, places: seq<nat>, accepted: seq<FixEdit>, i: nat)
    requires i < |es| && Picks(es, places, accepted) && Clashes(accepted, es[i]) && forall k :: k in places ==> k < i
    ensures Beaten(es, places, i)
  {
    var j :| 0 <= j < |accepted| && Overlaps(accepted[j], es[i]);
    assert places[j] in places;
  }

  lemma PickOneMore(lines: seq<string>, es: seq<FixEdit>, places: seq<nat>, accepted: seq<FixEdit>, i: nat)
    requires i < |es| && Picks(es, places, accepted) && Increasing(places) && (forall k :: k in places ==> k < i)
    requires Accepted(lines, accepted) && InRange(lines, es[i]) && !Clashes(accepted, es[i])
    ensures Picks(es, places + [i], accepted + [es[i]]) && Increasing(places + [i]) && Accepted(lines, accepted + [es[i]])
  {
    assert forall j :: 0 <= j < |places| ==> places[j] in places;
  }

  // ----- Applying them -----

  /** Overwrite the lines edit by edit. */
  ghost function Spliced(original: seq<string>, es: seq<FixEdit>): (lines: seq<string>)
    requires Accepted(original, es)
    ensures |lines| == |original|
  {
    if es == [] then original
    else
      var k := |es| - 1;
      var e := es[k];
      assert e in es;
      var before := Spliced(original, es[..k]);
      before[e.line - 1 := Splice(before[e.line - 1], e)]
  }

  method SpliceAll(original: seq<string>, valid: seq<FixEdit>) returns (lines: seq<string>)
    requires Accepted(original, valid)
    ensures lines == Spliced(original, valid)
  {
    lines := original;
    for i := 0 to |valid|
      invariant Accepted(original, valid[..i]) && lines == Spliced(original, valid[..i])
    {
      var e := valid[i];
      assert e in valid && valid[..i + 1][..i] == valid[..i];
      lines := lines[e.line - 1 := Splice(lines[e.line - 1], e)];
    }
    assert valid[..|valid|] == valid;
  }

  /** Each edit ends before the ones of its line that were applied before it start. */
  ghost predicate Backwards(es: seq<FixEdit>) {
    forall i, j :: 0 <= i < j < |es| && es[i].line == es[j].line ==> es[j].endColumn <= es[i].column
  }

  lemma SplicedMore(original: seq<string>, es: seq<FixEdit>, e: FixEdit, l: nat)
    requires Accepted(original, es) && Accepted(original, es + [e]) && InRange(original, e) && l < |original|
    ensures Spliced(original, es + [e])[l] == (if e.line - 1 == l then Splice(Spliced(original, es)[l], e) else Spliced(original, es)[l])
  {
    var all := es + [e];
    assert all[|es|] == e && all[..|es|] == es;
    assert Spliced(original, all) == var b := Spliced(original, all[..|es|]); b[e.line - 1 := Splice(b[e.line - 1], e)];
  }

  lemma FrontKeeps(original: seq<string>, es: seq<FixEdit>, e: FixEdit)
    requires Accepted(original, es + [e]) && Backwards(es + [e])
    ensures Accepted(original, es) && InRange(original, e) && Backwards(es)
    ensures forall v :: v in es && v.line == e.line ==> e.endColumn <= v.column
  {
    var all := es + [e];
    assert e in all;
    forall v | v in es ensures v in all && (v.line == e.line ==> e.endColumn <= v.column) {
      var i :| 0 <= i < |es| && es[i] == v;
      assert all[i] == v && all[|es|] == e;
    }
    assert forall i :: 0 <= i < |es| ==> all[i] == es[i];
  }

  lemma OneMoreLine(original: seq<string>, es: seq<FixEdit>, e: FixEdit, l: nat, now: string)
    requires l < |original| && InRange(original, e) && now == Substituted(original[l], es, l, 0)
    requires forall v :: v in es && v.line == e.line ==> e.endColumn <= v.column
    ensures (if e.line - 1 == l then Splice(now, e) else now) == Substituted(original[l], es + [e], l, 0)
  {
    if e.line - 1 == l { OneMore(original[l], es, e, l); } else { Behind(original[l], es, e, l, 0); }
  }

  /** Splicing backwards is substituting all at once. */
  lemma {:induction false} SplicedIsSubstituted(original: seq<string>, es: seq<FixEdit>, l: nat)
    requires Accepted(original, es) && Backwards(es) && l < |original|
    ensures Spliced(original, es)[l] == Substituted(original[l], es, l, 0)
  {
    if es == [] {
      NoEdits(original[l], l);
    } else {
      var k := |es| - 1;
      var e, front := es[k], es[..k];
      assert es == front + [e];
      FrontKeeps(original, front, e);
      SplicedIsSubstituted(original, front, l);
      SplicedMore(original, front, e, l);
      OneMoreLine(original, front, e, l, Spliced(original, front)[l]);
    }
  }

  /** The edit at `k` comes before the one at `i`: it starts later, or at the same place and was given first. */
  ghost predicate Precedes(edits: seq<FixEdit>, k: nat, i: nat)
    requires k < |edits| && i < |edits|
  {
    var a, b := edits[k], edits[i];
    a.line > b.line || (a.line == b.line && (a.column > b.column || (a.column == b.column && k < i)))
  }

  /** Which edits are applied, by their places in the list: in that order, those that are in range and overlap
      none before them that is applied. */
  ghost predicate Chosen(lines: seq<string>, edits: seq<FixEdit>, chosen: seq<nat>) {
    && (forall j :: 0 <= j < |chosen| ==> chosen[j] < |edits| && InRange(lines, edits[chosen[j]]))
    && (forall i, j :: 0 <= i < j < |chosen| ==> Precedes(edits, chosen[i], chosen[j]) && !Overlaps(edits[chosen[i]], edits[chosen[j]]))
    && (forall i: nat :: i < |edits| ==> i in chosen || !InRange(lines, edits[i]) || Loses(edits, chosen, i))
  }

  ghost predicate Loses(edits: seq<FixEdit>, chosen: seq<nat>, i: nat)
    requires i < |edits|
  {
    exists j :: 0 <= j < |chosen| && chosen[j] < |edits| && Precedes(edits, chosen[j], i) && Overlaps(edits[chosen[j]], edits[i])
  }

  /** No insertion is given before a replacement that starts where it stands. */
  ghost predicate Orderly(edits: seq<FixEdit>) {
    forall k, i :: 0 <= k < i < |edits| && edits[k].line == edits[i].line && edits[k].column == edits[i].column ==>
      edits[k].column < edits[k].endColumn || edits[i].column == edits[i].endColumn
  }

  /** Accepting in sorted order is choosing from the list as given. */
  lemma ChosenAsGiven(lines: seq<string>, edits: seq<FixEdit>, sorted: seq<FixEdit>, from: seq<nat>, places: seq<nat>, accepted: seq<FixEdit>)
      returns (chosen: seq<nat>)
    requires Sorted(sorted, Later) && Arranges(edits, sorted, Later, from)
    requires Picks(sorted, places, accepted) && Increasing(places) && Greedy(lines, sorted, |sorted|, places) && Accepted(lines, accepted)
    ensures Picks(edits, chosen, accepted) && Chosen(lines, edits, chosen)
  {
    chosen := seq(|places|, j requires 0 <= j < |places| => from[places[j]]);
    forall j | 0 <= j < |chosen| ensures chosen[j] < |edits| && InRange(lines, edits[chosen[j]]) {
      assert accepted[j] in accepted;
    }
    forall i, j | 0 <= i < j < |chosen|
      ensures Precedes(edits, chosen[i], chosen[j]) && !Overlaps(edits[chosen[i]], edits[chosen[j]])
    {
      SortedPrecedes(edits, sorted, from, places[i], places[j]);
      assert !Overlaps(accepted[i], accepted[j]);
    }
    forall i: nat | i < |edits| ensures i in chosen || !InRange(lines, edits[i]) || Loses(edits, chosen, i) {
      assert i in from;
      var q :| 0 <= q < |from| && from[q] == i;
      if q in places {
        var j :| 0 <= j < |places| && places[j] == q;
        assert chosen[j] == i;
      } else if Beaten(sorted, places, q) {
        var j :| 0 <= j < |places| && places[j] < q && Overlaps(sorted[places[j]], sorted[q]);
        SortedPrecedes(edits, sorted, from, places[j], q);
        assert chosen[j] < |edits|;
      }
    }
  }

  lemma SortedPrecedes(edits: seq<FixEdit>, sorted: seq<FixEdit>, from: seq<nat>, p: nat, q: nat)
    requires Sorted(sorted, Later) && Arranges(edits, sorted, Later, from) && p < q < |sorted|
    ensures Precedes(edits, from[p], from[q])
  {
    assert Later(sorted[p], sorted[q]);
    assert sorted[p] == edits[from[p]] && sorted[q] == edits[from[q]];
  }

  lemma OrderlyIsBackwards(lines: seq<string>, edits: seq<FixEdit>, chosen: seq<nat>, accepted: seq<FixEdit>)
    requires Chosen(lines, edits, chosen) && Picks(edits, chosen, accepted) && Accepted(lines, accepted) && Orderly(edits)
    ensures Backwards(accepted)
  {
    forall i, j | 0 <= i < j < |accepted| && accepted[i].line == accepted[j].line ensures accepted[j].endColumn <= accepted[i].column {
      assert Precedes(edits, chosen[i], chosen[j]) && !Overlaps(accepted[i], accepted[j]);
      assert accepted[i] in accepted && accepted[j] in accepted;
    }
  }

  /** Each line is the original one with the edits substituted all at once. */
  ghost predicate EachSubstituted(original: seq<string>, es: seq<FixEdit>, lines: seq<string>) {
    |lines| == |original| && forall l: nat :: l < |lines| ==> lines[l] == Substituted(original[l], es, l, 0)
  }

  /** The result has the same terminators, and its lines have the edits substituted all at once. */
  ghost predicate SubstitutedAtOnce(source: string, accepted: seq<FixEdit>, result: string) {
    var split := SplitLines(source);
    exists lines :: EachSubstituted(split.lines, accepted, lines) && result == JoinLines(lines, split.seps)
  }

  /** Apply the edits that are in range and overlap no earlier one; count the others. */
  method ApplyFixEdits(source: string, edits: seq<FixEdit>)
      returns (result: string, applied: nat, skipped: nat, ghost chosen: seq<nat>, ghost accepted: seq<FixEdit>)
    ensures applied + skipped == |edits| && applied == |chosen|
    ensures Chosen(SplitLines(source).lines, edits, chosen) && Picks(edits, chosen, accepted)
    ensures Accepted(SplitLines(source).lines, accepted)
    ensures result == JoinLines(Spliced(SplitLines(source).lines, accepted), SplitLines(source).seps)
    ensures Orderly(edits) ==> SubstitutedAtOnce(source, accepted, result)
  {
    JoinSplit(source);
    if |edits| == 0 {
      result, applied, skipped, chosen, accepted := source, 0, 0, [], [];
      SubstitutedWhenOrderly(source, edits, chosen, accepted);
      return;
    }
    var split := SplitLines(source);
    LaterIsPreorder();
    SortSorted(edits, Later);
    ghost var from := SortIsStable(edits, Later);
    ghost var places;
    var valid;
    valid, skipped, places := AcceptEdits(split.lines, Sort(edits, Later));
    chosen := ChosenAsGiven(split.lines, edits, Sort(edits, Later), from, places, valid);
    accepted, applied := valid, |valid|;
    var lines := SpliceAll(split.lines, valid);
    result := Rejoin(lines, split.seps);
    SubstitutedWhenOrderly(source, edits, chosen, accepted);
  }

  lemma SubstitutedWhenOrderly(source: string, edits: seq<FixEdit>, chosen: seq<nat>, accepted: seq<FixEdit>)
    requires Accepted(SplitLines(source).lines, accepted)
    requires Chosen(SplitLines(source).lines, edits, chosen) && Picks(edits, chosen, accepted)
    ensures Orderly(edits) ==> SubstitutedAtOnce(source, accepted, JoinLines(Spliced(SplitLines(source).lines, accepted), SplitLines(source).seps))
  {
    if Orderly(edits) {
      var original := SplitLines(source).lines;
      OrderlyIsBackwards(original, edits, chosen, accepted);
      var lines := Spliced(original, accepted);
      forall l: nat | l < |lines| ensures lines[l] == Substituted(original[l], accepted, l, 0) {
        SplicedIsSubstituted(original, accepted, l);
      }
      assert EachSubstituted(original, accepted, lines);
    }
  }

  // ----- Two edits that start at one place -----

  /** Applying one after the other is substituting both at once. */
  ghost predicate Agrees(text: string, a: FixEdit, b: FixEdit) {
    InRange([text], a) && InRange([text], b) ==> Splice(Splice(text, a), b) == Substituted(text, [a, b], 0, 0)
  }

  ghost predicate AlwaysAgree(a: FixEdit, b: FixEdit) {
    forall text, x, y :: Agrees(text, a.(replacement := x), b.(replacement := y))
  }

  lemma NoEdits(text: string, l: nat)
    ensures Substituted(text, [], l, 0) == text
  {
    Untouched(text, [], l, 0, |text|);
  }

  lemma AgreeWhenOrderly(text: string, a: FixEdit, b: FixEdit)
    requires a.column == b.column && !Overlaps(a, b) && (a.column < a.endColumn || b.column == b.endColumn)
    ensures Agrees(text, a, b)
  {
    if InRange([text], a) && InRange([text], b) {
      NoEdits(text, 0);
      OneMore(text, [], a, 0);
      OneMore(text, [a], b, 0);
      assert [] + [a] == [a] && [a] + [b] == [a, b];
    }
  }

  /** Two edits that start at one place and do not overlap agree with their substitution on every text and with
      all replacements if and only if the first is no insertion or the second is one: a replacement that comes
      after an insertion at its start overwrites what was inserted. */
  lemma SharedStartIsExact(a: FixEdit, b: FixEdit)
    requires a.line == b.line == 1 && 1 <= a.column == b.column && a.column <= a.endColumn && b.column <= b.endColumn && !Overlaps(a, b)
    ensures AlwaysAgree(a, b) <==> a.column < a.endColumn || b.column == b.endColumn
  {
    if a.column < a.endColumn || b.column == b.endColumn {
      forall text, x, y ensures Agrees(text, a.(replacement := x), b.(replacement := y)) {
        AgreeWhenOrderly(text, a.(replacement := x), b.(replacement := y));
      }
    } else {
      InsertionIsOverwritten(a.(replacement := "i"), b.(replacement := ""));
    }
  }

  lemma InsertionIsOverwritten(a: FixEdit, b: FixEdit)
    requires a.line == b.line == 1 && 1 <= a.column == b.column == a.endColumn < b.endColumn && a.replacement == "i" && b.replacement == ""
    ensures exists text :: !Agrees(text, a, b)
  {
    var c := a.column - 1;
    var text := seq(b.endColumn - 1, _ => '-');
    UntouchedFront(text, [a, b], 0, c);
    PutMore([a], b, 0, c);
    PutMore([], a, 0, c);
    assert [a] + [b] == [a, b] && [] + [a] == [a];
    StartsWithPut(text, [a, b], 0, c);
    InsertionGoes(text, a, b);
    assert !Agrees(text, a, b);
  }

  lemma StartsWithPut(text: string, es: seq<FixEdit>, l: int, p: nat)
    requires p <= |text| && PutAt(es, l, p) == "i" && Substituted(text, es, l, 0) == text[..p] + Substituted(text, es, l, p)
    ensures 'i' in Substituted(text, es, l, 0)
  {
    assert (text[..p] + Substituted(text, es, l, p))[p] == 'i';
  }

  lemma InsertionGoes(text: string, a: FixEdit, b: FixEdit)
    requires 1 <= a.column == b.column == a.endColumn < b.endColumn <= |text| + 1 && a.replacement == "i" && b.replacement == ""
    requires forall i :: 0 <= i < |text| ==> text[i] == '-'
    ensures 'i' !in Splice(Splice(text, a), b)
  {
    assert Splice(text, a) == text[..a.column - 1] + "i" + text[a.column - 1..];
  }
}
