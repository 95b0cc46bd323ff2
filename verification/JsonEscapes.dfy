/** Which escapes a written JSON string has (`checked-flow-artifact.ts`, canonicalJson through
    JSON.stringify): the written bytes are what is digested, so not only their meaning counts. */
module JsonEscapes {
  import opened DigitText
  import opened JsonText

  /** The letter after the backslash in a two-unit escape. */
  const SHORT: map<int, int> := map[
    0x08 := 0x62, 0x09 := 0x74, 0x0a := 0x6e, 0x0c := 0x66, 0x0d := 0x72, 0x22 := 0x22, 0x5c := 0x5c]

  ghost predicate LowerHex(u: Unit) {
    0x30 <= u <= 0x39 || 0x61 <= u <= 0x66
  }

  ghost function LowerHexValue(u: Unit): int {
    if u <= 0x39 then u - 0x30 else u - 0x61 + 10
  }

  /** `\u` and the four lower-case digits of `u`. */
  ghost predicate IsFourDigit(u: Unit, t: Text) {
    && |t| == 6 && t[0] == 0x5c && t[1] == 0x75
    && LowerHex(t[2]) && LowerHex(t[3]) && LowerHex(t[4]) && LowerHex(t[5])
    && LowerHexValue(t[2]) * 0x1000 + LowerHexValue(t[3]) * 0x100 + LowerHexValue(t[4]) * 0x10 + LowerHexValue(t[5]) == u
  }

  /** How a unit outside a surrogate pair is written. */
  ghost predicate WrittenAs(u: Unit, t: Text) {
    if u in SHORT then t == [0x5c, SHORT[u]]
    else if u < 0x20 || 0xd800 <= u <= 0xdfff then IsFourDigit(u, t)
    else t == [u]
  }

  ghost predicate PairAhead(s: Text) {
    |s| > 1 && 0xd800 <= s[0] <= 0xdbff && 0xdc00 <= s[1] <= 0xdfff
  }

  /** Surrogate pairs stand as they are; every other unit is written on its own. */
  ghost predicate WrittenForm(s: Text, t: Text)
    decreases |s|
  {
    if s == [] then t == []
    else if PairAhead(s) then |t| >= 2 && t[..2] == s[..2] && WrittenForm(s[2..], t[2..])
    else exists k :: 0 <= k <= |t| && WrittenAs(s[0], t[..k]) && WrittenForm(s[1..], t[k..])
  }

  lemma HexIsLower(n: int)
    requires 0 <= n < 16
    ensures LowerHex(HexDigit(n)) && LowerHexValue(HexDigit(n)) == n
  {}

  lemma HexTextIs(u: Unit)
    ensures IsFourDigit(u, [BACKSLASH, LOWER_U] + HexText(u))
  {
    HexIsLower(u / 4096);
    HexIsLower(u / 256 % 16);
    HexIsLower(u / 16 % 16);
    HexIsLower(u % 16);
    assert u / 256 == u / 16 / 16 && u / 4096 == u / 256 / 16;
  }

  lemma UnitIsWritten(u: Unit)
    ensures WrittenAs(u, EscapeUnit(u))
  {
    HexTextIs(u);
  }

  /** A string is written in that form, and in no other. */
  lemma {:induction false} EscapeForm(s: Text)
    ensures WrittenForm(s, Escape(s))
    decreases |s|
  {
    if s != [] {
      var k := if StartsWithPair(s) then 2 else 1;
      var rest := Escape(s[k..]);
      EscapeForm(s[k..]);
      if k == 2 {
        assert Escape(s)[2..] == rest;
      } else {
        var e := EscapeUnit(s[0]);
        UnitIsWritten(s[0]);
        assert Escape(s) == e + rest && (e + rest)[..|e|] == e && (e + rest)[|e|..] == rest;
      }
    }
  }

  lemma {:induction false} FormIsUnique(s: Text, t: Text, t': Text)
    requires WrittenForm(s, t) && WrittenForm(s, t')
    ensures t == t'
    decreases |s|
  {
    if s != [] {
      if PairAhead(s) {
        FormIsUnique(s[2..], t[2..], t'[2..]);
        assert t == t[..2] + t[2..] && t' == t'[..2] + t'[2..];
      } else {
        var k :| 0 <= k <= |t| && WrittenAs(s[0], t[..k]) && WrittenForm(s[1..], t[k..]);
        var k' :| 0 <= k' <= |t'| && WrittenAs(s[0], t'[..k']) && WrittenForm(s[1..], t'[k'..]);
        FormIsUnique(s[1..], t[k..], t'[k'..]);
        WrittenOnce(s[0], t[..k], t'[..k']);
        assert t == t[..k] + t[k..] && t' == t'[..k'] + t'[k'..];
      }
    }
  }

  lemma WrittenOnce(u: Unit, a: Text, b: Text)
    requires WrittenAs(u, a) && WrittenAs(u, b)
    ensures a == b
  {
    if u !in SHORT && (u < 0x20 || 0xd800 <= u <= 0xdfff) {
      SameDigits(LowerHexValue(a[2]), LowerHexValue(a[3]), LowerHexValue(a[4]), LowerHexValue(a[5]),
                 LowerHexValue(b[2]), LowerHexValue(b[3]), LowerHexValue(b[4]), LowerHexValue(b[5]));
      assert forall i :: 0 <= i < 6 ==> a[i] == b[i];
    }
  }

  lemma SameDigits(a: int, b: int, c: int, d: int, e: int, f: int, g: int, h: int)
    requires 0 <= a < 16 && 0 <= b < 16 && 0 <= c < 16 && 0 <= d < 16 && 0 <= e < 16 && 0 <= f < 16 && 0 <= g < 16 && 0 <= h < 16
    requires a * 0x1000 + b * 0x100 + c * 0x10 + d == e * 0x1000 + f * 0x100 + g * 0x10 + h
    ensures a == e && b == f && c == g && d == h
  {}

  // ----- Shortest -----

  /** Every surrogate stands in a pair. */
  ghost predicate Paired(s: Text)
    decreases |s|
  {
    s == [] || (if PairAhead(s) then Paired(s[2..]) else !(0xd800 <= s[0] <= 0xdfff) && Paired(s[1..]))
  }

  /** The fewest units that can stand for `u`. */
  ghost function LeastUnits(u: Unit): nat {
    if u in SHORT then 2 else if u < 0x20 then 6 else 1
  }

  ghost function LeastLength(s: Text): nat {
    if s == [] then 0 else LeastUnits(s[0]) + LeastLength(s[1..])
  }

  lemma {:induction false} EscapeLength(s: Text)
    requires Paired(s)
    ensures |Escape(s)| == LeastLength(s)
    decreases |s|
  {
    if s != [] {
      if PairAhead(s) {
        EscapeLength(s[2..]);
        assert s[1..][1..] == s[2..];
        assert LeastLength(s[1..]) == 1 + LeastLength(s[2..]);
      } else {
        EscapeLength(s[1..]);
        UnitIsWritten(s[0]);
      }
    }
  }

  /** Whatever denotes the string has at least that many units. */
  lemma {:induction false} NoShorter(t: Text, s: Text)
    requires Unescape(t) == Decoded(s)
    ensures LeastLength(s) <= |t|
    decreases |t|
  {
    if t != [] {
      var k := StepLength(t);
      FirstUnit(t, s);
      NoShorter(t[k..], s[1..]);
    }
  }

  lemma PrependSplits(u: Unit, d: Decoded, s: Text)
    requires Prepend(u, d) == Decoded(s)
    ensures s != [] && s[0] == u && d == Decoded(s[1..])
  {}

  lemma FirstStep(t: Text)
    requires t != [] && Unescape(t).Decoded?
    ensures var k := StepLength(t);
      && k <= |t|
      && (k == 1 ==> t[0] >= 0x20 && t[0] != QUOTE && t[0] != BACKSLASH && Unescape(t) == Prepend(t[0], Unescape(t[1..])))
      && (k == 2 ==> IsShort(t[1]) && Unescape(t) == Prepend(FromShort(t[1]), Unescape(t[2..])))
      && (k == 6 ==> FourHex(t[2..]) && Unescape(t) == Prepend(FromHex(t[2..]), Unescape(t[6..])))
  {}

  lemma ShortNeedsTwo(u: Unit)
    requires IsShort(u)
    ensures LeastUnits(FromShort(u)) <= 2
  {}

  lemma FirstUnit(t: Text, s: Text)
    requires t != [] && Unescape(t) == Decoded(s)
    ensures var k := StepLength(t); k <= |t| && s != [] && Unescape(t[k..]) == Decoded(s[1..]) && LeastUnits(s[0]) <= k
  {
    var k := StepLength(t);
    FirstStep(t);
    var u := if k == 1 then t[0] else if k == 2 then FromShort(t[1]) else FromHex(t[2..]);
    PrependSplits(u, Unescape(t[k..]), s);
    if k == 2 { ShortNeedsTwo(t[1]); }
  }

  /** Without lone surrogates no shorter body denotes the string. */
  lemma EscapeIsShortest(s: Text, t: Text)
    requires Paired(s) && Unescape(t) == Decoded(s)
    ensures |Escape(s)| <= |t|
  {
    EscapeLength(s);
    NoShorter(t, s);
  }
}
