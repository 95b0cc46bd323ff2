/** What the escape analysis answers, both ways, by the places where names stand (`escape-analysis.ts`,
    computeAliases and recordEscapes). A place is a path of child positions from the body down. */
module EscapeOccurrences {
  import opened Options
  import opened Reachability
  import opened Escape
  import LinePatterns

  type Path = seq<nat>

  /** The node at a place, if there is one. */
  ghost function At(n: Node, path: Path): Option<Node>
    decreases |path|
  {
    if path == [] then Some(n)
    else if path[0] < |n.children| then At(n.children[path[0]], path[1..])
    else None
  }

  ghost predicate NamesOneOf(n: Node, names: set<string>) {
    n.kind == Identifier && n.value.Some? && n.value.value in names
  }

  ghost predicate AnyBinding(n: Node) {
    n.kind == LetDecl || n.kind == MutDecl || n.kind == AssignStmt
  }

  /** The name is the receiver of a field read or the whole right side of a binding. */
  ghost predicate SafeChild(n: Node, i: nat) {
    (n.kind == MemberExpr || AnyBinding(n)) && i == 0
  }

  /** Below this node one may go on to child `i`: of a field read only to the receiver, and not below a
      field read or a binding that has one of the names in its safe place. */
  ghost predicate Passable(n: Node, i: nat, names: set<string>) {
    && (n.kind == MemberExpr ==> i == 0)
    && ((n.kind == MemberExpr || AnyBinding(n)) && n.children != [] ==> !NamesOneOf(n.children[0], names))
  }

  /** One of the names stands at the place, and the way there is passable. */
  ghost predicate UnsafeAt(n: Node, path: Path, names: set<string>) {
    && path != []
    && At(n, path).Some? && NamesOneOf(At(n, path).value, names)
    && forall k :: 0 <= k < |path| ==> At(n, path[..k]).Some? && Passable(At(n, path[..k]).value, path[k], names)
  }

  // ----- One step down -----

  lemma DownOne(n: Node, i: nat, rest: Path)
    requires i < |n.children|
    ensures At(n, [i] + rest) == At(n.children[i], rest)
    ensures forall k :: 0 <= k <= |rest| ==> At(n, ([i] + rest)[..k + 1]) == At(n.children[i], rest[..k])
  {
    assert ([i] + rest)[1..] == rest;
    forall k | 0 <= k <= |rest| ensures At(n, ([i] + rest)[..k + 1]) == At(n.children[i], rest[..k]) {
      assert ([i] + rest)[..k + 1] == [i] + rest[..k];
      assert ([i] + rest[..k])[1..] == rest[..k];
    }
  }

  lemma UnsafeBelow(n: Node, i: nat, rest: Path, names: set<string>)
    requires i < |n.children| && rest != []
    ensures UnsafeAt(n, [i] + rest, names) <==> Passable(n, i, names) && UnsafeAt(n.children[i], rest, names)
  {
    var path := [i] + rest;
    DownOne(n, i, rest);
    assert path[..0] == [] && path[0] == i;
    if Passable(n, i, names) && UnsafeAt(n.children[i], rest, names) {
      forall k | 0 <= k < |path| ensures At(n, path[..k]).Some? && Passable(At(n, path[..k]).value, path[k], names) {
        if k > 0 { assert At(n, path[..(k - 1) + 1]) == At(n.children[i], rest[..k - 1]) && path[k] == rest[k - 1]; }
      }
    }
    if UnsafeAt(n, path, names) {
      assert Passable(At(n, path[..0]).value, path[0], names);
      forall k | 0 <= k < |rest| ensures At(n.children[i], rest[..k]).Some? && Passable(At(n.children[i], rest[..k]).value, rest[k], names) {
        assert At(n, path[..k + 1]) == At(n.children[i], rest[..k]) && path[k + 1] == rest[k];
      }
    }
  }

  lemma UnsafeHere(n: Node, i: nat, names: set<string>)
    requires i < |n.children|
    ensures UnsafeAt(n, [i], names) <==> Passable(n, i, names) && NamesOneOf(n.children[i], names)
  {
    assert [i][1..] == [] && [i][..0] == [];
    assert At(n, [i]) == Some(n.children[i]);
  }

  ghost predicate Unsafe(n: Node, names: set<string>) {
    exists path :: UnsafeAt(n, path, names)
  }

  /** Child `i` is such a name or has one inside. */
  ghost predicate UnsafeVia(n: Node, i: nat, names: set<string>)
    requires i < |n.children|
  {
    Passable(n, i, names) && (NamesOneOf(n.children[i], names) || Unsafe(n.children[i], names))
  }

  lemma UnsafeByChild(n: Node, names: set<string>)
    ensures Unsafe(n, names) <==> exists i :: 0 <= i < |n.children| && UnsafeVia(n, i, names)
  {
    if path :| UnsafeAt(n, path, names) {
      var i, rest := path[0], path[1..];
      assert path == [i] + rest && At(n, path).Some?;
      if rest == [] {
        assert path == [i];
        UnsafeHere(n, i, names);
      } else { UnsafeBelow(n, i, rest, names); }
      assert UnsafeVia(n, i, names);
    }
    if i :| 0 <= i < |n.children| && UnsafeVia(n, i, names) {
      if NamesOneOf(n.children[i], names) {
        UnsafeHere(n, i, names);
      } else {
        var rest :| UnsafeAt(n.children[i], rest, names);
        UnsafeBelow(n, i, rest, names);
      }
    }
  }

  // ----- The answer -----

  /** The walk answers yes if and only if one of the names stands at an unsafe place. */
  lemma {:induction false} EscapesIsUnsafe(n: Node, names: set<string>)
    ensures Escapes(n, names) <==> Unsafe(n, names)
  {
    forall i | 0 <= i < |n.children| ensures Escapes(n.children[i], names) <==> Unsafe(n.children[i], names) {
      EscapesIsUnsafe(n.children[i], names);
    }
    UnsafeByChild(n, names);
    if n.kind == MemberExpr {
      if n.children != [] { assert UnsafeVia(n, 0, names) <==> Escapes(n, names); }
    } else if !Passthrough(n, names) {
      forall i | 0 <= i < |n.children|
        ensures UnsafeVia(n, i, names) <==> IsAlias(n.children[i], names) || Escapes(n.children[i], names)
      {}
    }
  }

  /** If every one of the names stands in a safe place, the answer is no. */
  lemma SafePlacesMeanNo(body: Node, names: set<string>)
    requires forall path: Path :: path != [] && At(body, path).Some? && NamesOneOf(At(body, path).value, names) ==>
      At(body, path[..|path| - 1]).Some? && SafeChild(At(body, path[..|path| - 1]).value, path[|path| - 1])
    ensures !Escapes(body, names)
  {
    EscapesIsUnsafe(body, names);
    forall path | UnsafeAt(body, path, names) ensures false { UnsafeLast(body, path, names); }
  }

  lemma UnsafeLast(body: Node, path: Path, names: set<string>)
    requires UnsafeAt(body, path, names)
    ensures At(body, path[..|path| - 1]).Some? && !SafeChild(At(body, path[..|path| - 1]).value, path[|path| - 1])
  {
    var k := |path| - 1;
    assert path == path[..k] + [path[k]];
    LastStep(body, path[..k], path[k]);
    assert Passable(At(body, path[..k]).value, path[k], names);
  }

  lemma {:induction false} LastStep(n: Node, path: Path, i: nat)
    requires At(n, path + [i]).Some?
    ensures At(n, path).Some? && i < |At(n, path).value.children| && At(n, path + [i]) == Some(At(n, path).value.children[i])
    decreases |path|
  {
    if path == [] { assert [i][1..] == [] && [] + [i] == [i]; } else {
      assert (path + [i])[1..] == path[1..] + [i];
      LastStep(n.children[path[0]], path[1..], i);
    }
  }

  // ----- The names -----

  /** The text up to its first colon, without the white space around it, is `name`. */
  ghost predicate Declares(text: string, name: string) {
    exists a, b, rest :: DeclaredAs(text, a, name, b, rest)
  }

  ghost predicate DeclaredAs(text: string, a: string, name: string, b: string, rest: string) {
    && text == a + name + b + rest && ':' !in a + name + b && (rest == "" || rest[0] == ':')
    && Blank(a) && Blank(b) && Trimmed(name)
  }

  ghost predicate Blank(t: string) {
    forall i :: 0 <= i < |t| ==> LinePatterns.IsSpace(t[i])
  }

  ghost predicate Trimmed(t: string) {
    t != "" && !LinePatterns.IsSpace(t[0]) && !LinePatterns.IsSpace(t[|t| - 1])
  }

  /** Somewhere in the body `y` is bound to plain `x`. */
  ghost predicate Rebinds(body: Node, x: string, y: string) {
    exists path: Path :: RebindsAt(body, path, x, y)
  }

  ghost predicate RebindsAt(body: Node, path: Path, x: string, y: string) {
    At(body, path).Some? && RebindsHere(At(body, path).value, x, y)
  }

  ghost predicate RebindsHere(n: Node, x: string, y: string) {
    && AnyBinding(n) && n.value.Some? && Declares(n.value.value, y)
    && n.children != [] && n.children[0].kind == Identifier && n.children[0].value == Some(x)
  }

  lemma {:induction false} UpToColonIs(s: string)
    ensures UpToColon(s) <= s && ':' !in UpToColon(s)
    ensures |UpToColon(s)| < |s| ==> s[|UpToColon(s)|] == ':'
  {
    if s != "" && s[0] != ':' { UpToColonIs(s[1..]); }
  }

  lemma {:induction false} TrimIs(s: string) returns (a: string, b: string)
    ensures s == a + Trim(s) + b && Blank(a) && Blank(b)
    ensures Trim(s) == "" || Trimmed(Trim(s))
    decreases |s|
  {
    a, b := "", "";
    if s != "" {
      if LinePatterns.IsSpace(s[0]) {
        a, b := TrimIs(s[1..]);
        a := [s[0]] + a;
      } else if LinePatterns.IsSpace(s[|s| - 1]) {
        a, b := TrimIs(s[..|s| - 1]);
        b := b + [s[|s| - 1]];
      }
    }
  }

  /** What stands before the first colon. */
  ghost predicate IsHead(text: string, head: string) {
    head <= text && ':' !in head && (|head| < |text| ==> text[|head|] == ':')
  }

  ghost predicate IsTrimOf(t: string, a: string, name: string, b: string) {
    t == a + name + b && Blank(a) && Blank(b) && Trimmed(name)
  }

  lemma HeadNotShorter(text: string, p: string, q: string)
    requires IsHead(text, p) && IsHead(text, q)
    ensures |p| >= |q|
  {
    assert forall i :: 0 <= i < |q| ==> q[i] == text[i] && q[i] != ':';
  }

  lemma OneHead(text: string, p: string, q: string)
    requires IsHead(text, p) && IsHead(text, q)
    ensures p == q
  {
    HeadNotShorter(text, p, q);
    HeadNotShorter(text, q, p);
    assert p == text[..|p|] && q == text[..|q|];
  }

  lemma NoLaterStart(t: string, a: string, x: string, b: string, c: string, y: string, d: string)
    requires IsTrimOf(t, a, x, b) && IsTrimOf(t, c, y, d)
    ensures |c| <= |a| && |d| <= |b|
  {
    assert t[|a|] == x[0] && t[|a| + |x| - 1] == x[|x| - 1];
    assert forall i :: 0 <= i < |c| ==> t[i] == c[i] && LinePatterns.IsSpace(t[i]);
    forall i | |t| - |d| <= i < |t| ensures LinePatterns.IsSpace(t[i]) { assert t[i] == d[i - (|t| - |d|)]; }
  }

  lemma OneTrim(t: string, a: string, x: string, b: string, c: string, y: string, d: string)
    requires IsTrimOf(t, a, x, b) && IsTrimOf(t, c, y, d)
    ensures x == y
  {
    NoLaterStart(t, a, x, b, c, y, d);
    NoLaterStart(t, c, y, d, a, x, b);
    assert x == t[|a|..|a| + |x|] && y == t[|c|..|c| + |y|];
  }

  lemma DeclaresHead(text: string, head: string, name: string) returns (a: string, b: string)
    requires IsHead(text, head) && Declares(text, name)
    ensures IsTrimOf(head, a, name, b)
  {
    var c, d, rest :| DeclaredAs(text, c, name, d, rest);
    a, b := c, d;
    assert IsHead(text, c + name + d);
    OneHead(text, head, c + name + d);
  }

  lemma HeadDeclares(text: string, head: string, a: string, name: string, b: string)
    requires IsHead(text, head) && IsTrimOf(head, a, name, b)
    ensures Declares(text, name)
  {
    var rest := text[|head|..];
    assert DeclaredAs(text, a, name, b, rest);
  }

  lemma NoTrimOfBlank(t: string, a: string, name: string, b: string)
    requires Blank(t)
    ensures !IsTrimOf(t, a, name, b)
  {
    assert t == a + name + b && name != "" ==> t[|a|] == name[0];
  }

  lemma DeclaredIsNotEmpty(text: string, name: string)
    requires Declares(text, name)
    ensures name != ""
  {
    var a, b, rest :| DeclaredAs(text, a, name, b, rest);
  }

  lemma BindingNameIs(n: Node, y: string)
    requires n.value.Some? && y != ""
    ensures BindingName(n) == y <==> Declares(n.value.value, y)
  {
    var text := n.value.value;
    var head := UpToColon(text);
    UpToColonIs(text);
    var a, b := TrimIs(head);
    assert BindingName(n) == Trim(head);
    if Trim(head) != "" { HeadDeclares(text, head, a, Trim(head), b); }
    if Declares(text, y) {
      var c, d := DeclaresHead(text, head, y);
      if Trim(head) != "" { OneTrim(head, a, Trim(head), b, c, y, d); }
      if Blank(head) { NoTrimOfBlank(head, c, y, d); }
      assert Trim(head) == "" ==> head == a + b;
    }
  }

  lemma {:induction false} BindIsPlaced(n: Node, b: Bind)
    requires b in Binds(n)
    ensures exists path: Path :: At(n, path).Some? && AnyBinding(At(n, path).value) && b == BindOf(At(n, path).value)
  {
    if IsBinding(n) && b == BindOf(n) { assert At(n, []) == Some(n); } else {
      var i := BindInChild(n.children, b);
      BindIsPlaced(n.children[i], b);
      var path: Path :| At(n.children[i], path).Some? && AnyBinding(At(n.children[i], path).value) && b == BindOf(At(n.children[i], path).value);
      DownOne(n, i, path);
    }
  }

  lemma {:induction false} BindInChild(ns: seq<Node>, b: Bind) returns (i: nat)
    requires b in BindsOf(ns)
    ensures i < |ns| && b in Binds(ns[i])
  {
    var k := |ns| - 1;
    if b in Binds(ns[k]) { i := k; } else { i := BindInChild(ns[..k], b); }
  }

  lemma {:induction false} PlacedIsBind(n: Node, path: Path)
    requires At(n, path).Some? && AnyBinding(At(n, path).value)
    ensures BindOf(At(n, path).value) in Binds(n)
    decreases |path|
  {
    if path != [] {
      PlacedIsBind(n.children[path[0]], path[1..]);
      ChildBinds(n.children, path[0]);
    }
  }

  /** The arcs that aliases follow are the plain rebindings anywhere in the body. */
  lemma ArcsAreRebindings(body: Node, x: string, y: string)
    ensures (x, y) in PassArcs(Binds(body)) <==> Rebinds(body, x, y)
  {
    if (x, y) in PassArcs(Binds(body)) {
      var b :| b in Binds(body) && PassesOn(b) && (b.init.value.value.value, b.name) == (x, y);
      BindIsPlaced(body, b);
      var path: Path :| At(body, path).Some? && AnyBinding(At(body, path).value) && b == BindOf(At(body, path).value);
      BindingNameIs(At(body, path).value, y);
      assert RebindsAt(body, path, x, y);
    }
    if Rebinds(body, x, y) {
      var path: Path :| RebindsAt(body, path, x, y);
      var n := At(body, path).value;
      PlacedIsBind(body, path);
      DeclaredIsNotEmpty(n.value.value, y);
      BindingNameIs(n, y);
      assert PassesOn(BindOf(n)) && (BindOf(n).init.value.value.value, BindOf(n).name) == (x, y);
    }
  }

  /** `p` runs from the record's name to `x`, each name plainly bound to the one before. */
  ghost predicate RebindChain(body: Node, p: seq<string>, r: string, x: string) {
    p != [] && p[0] == r && p[|p| - 1] == x && forall i :: 0 <= i < |p| - 1 ==> Rebinds(body, p[i], p[i + 1])
  }

  ghost predicate LooksLike(body: Node, r: string, x: string) {
    exists p :: RebindChain(body, p, r, x)
  }

  lemma AliasesLookLike(body: Node, r: string, aliases: set<string>)
    requires AreAliases(aliases, r, body)
    ensures AreLookalikes(aliases, r, body)
  {
    var arcs := PassArcs(Binds(body));
    forall p, x ensures IsPathFrom(arcs, p, r, x) <==> RebindChain(body, p, r, x) {
      forall i | 0 <= i < |p| - 1 ensures (p[i], p[i + 1]) in arcs <==> Rebinds(body, p[i], p[i + 1]) {
        ArcsAreRebindings(body, p[i], p[i + 1]);
      }
    }
  }

  ghost predicate AreLookalikes(names: set<string>, r: string, body: Node) {
    forall x :: x in names <==> LooksLike(body, r, x)
  }

  /** Some name that looks like the record's stands at an unsafe place. */
  ghost predicate RecordUnsafe(r: string, body: Node) {
    exists names :: AreLookalikes(names, r, body) && Unsafe(body, names)
  }

  /** The answer is yes if and only if a name that plain rebindings lead to from the record's stands at an
      unsafe place. */
  method RecordEscapes(r: string, body: Node) returns (escaped: bool)
    ensures escaped <==> RecordUnsafe(r, body)
    ensures forall aliases :: AreAliases(aliases, r, body) ==> (escaped <==> Escapes(body, aliases))
  {
    var aliases := ComputeAliases(r, body);
    escaped := Visit(body, aliases, false);
    forall other | AreAliases(other, r, body) ensures escaped <==> Escapes(body, other) {
      AliasesUnique(aliases, other, r, body);
    }
    AliasesLookLike(body, r, aliases);
    EscapesIsUnsafe(body, aliases);
    forall names | AreLookalikes(names, r, body) ensures names == aliases {}
  }
}
