/** Strings and integers in JSON text (`checked-flow-artifact.ts`): the escapes of section 7 of RFC 8259
    as JSON.stringify writes them, and the scanner's reading of strings and numbers. */
module JsonText {
  import opened DigitText

  const QUOTE: Unit := 0x22
  const BACKSLASH: Unit := 0x5c
  const LOWER_U: Unit := 0x75
  /** The outcome of reading from the front of a text: a value and what is left, or a refusal. */
  datatype Read<T> = Read(value: T, rest: Text) | Refused(code: string)

  // ----- Hexadecimal -----

  function HexDigit(n: int): Unit
    requires 0 <= n < 16
  {
    if n < 10 then ZERO + n else 0x61 + (n - 10)
  }

  predicate IsHex(u: Unit) {
    0x30 <= u <= 0x39 || 0x41 <= u <= 0x46 || 0x61 <= u <= 0x66
  }

  function HexValue(u: Unit): (n: int)
    requires IsHex(u)
    ensures 0 <= n < 16
  {
    if u <= 0x39 then u - 0x30 else if u <= 0x46 then u - 0x41 + 10 else u - 0x61 + 10
  }

  function HexText(u: Unit): (t: Text)
    ensures |t| == 4
  {
    [HexDigit(u / 4096), HexDigit(u / 256 % 16), HexDigit(u / 16 % 16), HexDigit(u % 16)]
  }

  predicate FourHex(t: Text) {
    |t| >= 4 && IsHex(t[0]) && IsHex(t[1]) && IsHex(t[2]) && IsHex(t[3])
  }

  function FromHex(t: Text): Unit
    requires FourHex(t)
  {
    HexValue(t[0]) * 4096 + HexValue(t[1]) * 256 + HexValue(t[2]) * 16 + HexValue(t[3])
  }

  lemma HexRoundTrip(u: Unit)
    ensures FourHex(HexText(u)) && FromHex(HexText(u)) == u
  {
    HexDigitValue(u / 4096);
    HexDigitValue(u / 256 % 16);
    HexDigitValue(u / 16 % 16);
    HexDigitValue(u % 16);
    assert u / 256 == u / 16 / 16 && u / 4096 == u / 256 / 16;
  }

  lemma HexDigitValue(n: int)
    requires 0 <= n < 16
    ensures IsHex(HexDigit(n)) && HexValue(HexDigit(n)) == n
  {}

  // ----- Escapes -----

  predicate IsHigh(u: Unit) {
    0xd800 <= u <= 0xdbff
  }

  predicate IsLow(u: Unit) {
    0xdc00 <= u <= 0xdfff
  }

  predicate StartsWithPair(s: Text) {
    |s| > 1 && IsHigh(s[0]) && IsLow(s[1])
  }

  /** The letter of a two-unit escape, or 0. */
  function ShortEscape(u: Unit): Unit {
    if u == QUOTE then QUOTE
    else if u == BACKSLASH then BACKSLASH
    else if u == 8 then 0x62
    else if u == 9 then 0x74
    else if u == 10 then 0x6e
    else if u == 12 then 0x66
    else if u == 13 then 0x72
    else 0
  }

  /** What an escape letter stands for; a solidus may be escaped too. */
  function FromShort(u: Unit): Unit {
    if u == 0x62 then 8
    else if u == 0x74 then 9
    else if u == 0x6e then 10
    else if u == 0x66 then 12
    else if u == 0x72 then 13
    else u
  }

  predicate IsShort(u: Unit) {
    u == QUOTE || u == BACKSLASH || u == 0x2f || u == 0x62 || u == 0x66 || u == 0x6e || u == 0x72 || u == 0x74
  }

  /** One unit inside a quoted string: raw, a two-unit escape, or a four-digit one. */
  function EscapeUnit(u: Unit): (t: Text) {
    if ShortEscape(u) != 0 then [BACKSLASH, ShortEscape(u)]
    else if u < 0x20 || IsHigh(u) || IsLow(u) then [BACKSLASH, LOWER_U] + HexText(u)
    else [u]
  }

  /** A surrogate pair stays as it is; a surrogate on its own is escaped. */
  function Escape(s: Text): Text {
    if s == [] then []
    else if StartsWithPair(s) then [s[0], s[1]] + Escape(s[2..])
    else EscapeUnit(s[0]) + Escape(s[1..])
  }

  function Quote(s: Text): Text {
    [QUOTE] + Escape(s) + [QUOTE]
  }

  // ----- The scanner's view of a string -----

  /** The length of the string body from here to its closing quote. */
  function ScanBody(t: Text): (r: Read<nat>)
    ensures r.Read? ==> 0 < r.value <= |t| && r.rest == t[r.value..] && t[r.value - 1] == QUOTE
    decreases |t|
  {
    if t == [] then Refused("JSON_STRING_TRUNCATED")
    else if t[0] == QUOTE then Read(1, t[1..])
    else if t[0] < 0x20 then Refused("JSON_STRING_CONTROL")
    else if t[0] == BACKSLASH then
      if |t| > 1 && t[1] == LOWER_U then
        if FourHex(t[2..]) then Longer(6, ScanBody(t[6..])) else Refused("JSON_ESCAPE")
      else if |t| > 1 && IsShort(t[1]) then Longer(2, ScanBody(t[2..]))
      else Refused("JSON_ESCAPE")
    else Longer(1, ScanBody(t[1..]))
  }

  function Longer(k: nat, r: Read<nat>): Read<nat> {
    match r
    case Read(n, rest) => Read(k + n, rest)
    case Refused(code) => Refused(code)
  }

  datatype Decoded = Decoded(text: Text) | Undecodable

  function Prepend(u: Unit, d: Decoded): Decoded {
    if d.Decoded? then Decoded([u] + d.text) else d
  }

  /** The string that a body (without its quotes) denotes. */
  function Unescape(t: Text): Decoded
    decreases |t|
  {
    if t == [] then Decoded([])
    else if t[0] == QUOTE || t[0] < 0x20 then Undecodable
    else if t[0] == BACKSLASH then
      if |t| > 1 && t[1] == LOWER_U then
        if FourHex(t[2..]) then Prepend(FromHex(t[2..]), Unescape(t[6..])) else Undecodable
      else if |t| > 1 && IsShort(t[1]) then Prepend(FromShort(t[1]), Unescape(t[2..]))
      else Undecodable
    else Prepend(t[0], Unescape(t[1..]))
  }

  /** How much of a string body the scan takes at once. */
  function StepLength(t: Text): nat
    requires t != []
  {
    if t[0] != BACKSLASH then 1 else if |t| > 1 && t[1] == LOWER_U then 6 else 2
  }

  lemma StepScans(t: Text)
    requires ScanBody(t).Read? && t[0] != QUOTE
    ensures var k := StepLength(t); k < |t| && ScanBody(t) == Longer(k, ScanBody(t[k..]))
  {}

  /** Whatever the scan lets through can be decoded. */
  lemma {:induction false} ScannedIsDecodable(t: Text)
    requires ScanBody(t).Read?
    ensures Unescape(t[..ScanBody(t).value - 1]).Decoded?
    decreases |t|
  {
    if t[0] != QUOTE {
      StepScans(t);
      var k := StepLength(t);
      ScannedIsDecodable(t[k..]);
      PrefixDecodes(t, k, ScanBody(t[k..]).value - 1);
    }
  }

  lemma PrefixDecodes(t: Text, k: nat, n: nat)
    requires ScanBody(t).Read? && t[0] != QUOTE && k == StepLength(t) && k + n <= |t|
    requires Unescape(t[k..][..n]).Decoded?
    ensures Unescape(t[..k + n]).Decoded?
  {
    if k == 1 {
      RawPrefix(t, n);
    } else if k == 2 {
      ShortPrefix(t, n);
    } else {
      FourPrefix(t, n);
    }
  }

  lemma RawPrefix(t: Text, n: nat)
    requires 1 + n <= |t| && t[0] >= 0x20 && t[0] != QUOTE && t[0] != BACKSLASH && Unescape(t[1..][..n]).Decoded?
    ensures Unescape(t[..1 + n]).Decoded?
  {
    RawDecodes(t[0], t[1..][..n]);
    assert t[..1 + n] == [t[0]] + t[1..][..n];
  }

  lemma ShortPrefix(t: Text, n: nat)
    requires 2 + n <= |t| && t[0] == BACKSLASH && IsShort(t[1]) && Unescape(t[2..][..n]).Decoded?
    ensures Unescape(t[..2 + n]).Decoded?
  {
    ShortDecodes(t[1], t[2..][..n]);
    assert t[..2 + n] == [t[0], t[1]] + t[2..][..n];
  }

  lemma FourPrefix(t: Text, n: nat)
    requires 6 + n <= |t| && t[0] == BACKSLASH && t[1] == LOWER_U && FourHex(t[2..]) && Unescape(t[6..][..n]).Decoded?
    ensures Unescape(t[..6 + n]).Decoded?
  {
    FourDecodes(t[2..6], t[6..][..n]);
    assert t[..6 + n] == [t[0], t[1]] + t[2..6] + t[6..][..n];
  }

  lemma RawDecodes(u: Unit, t: Text)
    requires u >= 0x20 && u != QUOTE && u != BACKSLASH && Unescape(t).Decoded?
    ensures Unescape([u] + t).Decoded?
  {
    assert ([u] + t)[1..] == t;
  }

  lemma ShortDecodes(u: Unit, t: Text)
    requires IsShort(u) && Unescape(t).Decoded?
    ensures Unescape([BACKSLASH, u] + t).Decoded?
  {
    assert ([BACKSLASH, u] + t)[2..] == t;
  }

  lemma FourDecodes(h: Text, t: Text)
    requires |h| == 4 && FourHex(h) && Unescape(t).Decoded?
    ensures Unescape([BACKSLASH, LOWER_U] + h + t).Decoded?
  {
    var x := [BACKSLASH, LOWER_U] + h + t;
    assert x[2..] == h + t && x[6..] == t;
  }

  lemma ScanUnit(u: Unit, t: Text)
    ensures ScanBody(EscapeUnit(u) + t) == Longer(|EscapeUnit(u)|, ScanBody(t))
    ensures Unescape(EscapeUnit(u) + t) == Prepend(u, Unescape(t))
  {
    var e := EscapeUnit(u);
    assert (e + t)[|e|..] == t;
    if |e| == 6 {
      HexRoundTrip(u);
      assert (e + t)[2..] == HexText(u) + t;
      assert FromHex(HexText(u) + t) == FromHex(HexText(u));
    }
  }

  lemma ScanRaw(u: Unit, t: Text)
    requires u >= 0x20 && u != QUOTE && u != BACKSLASH
    ensures ScanBody([u] + t) == Longer(1, ScanBody(t))
    ensures Unescape([u] + t) == Prepend(u, Unescape(t))
  {
    assert ([u] + t)[1..] == t;
  }

  lemma ScanPair(u: Unit, v: Unit, t: Text)
    requires IsHigh(u) && IsLow(v)
    ensures ScanBody([u, v] + t) == Longer(2, ScanBody(t))
    ensures Unescape([u, v] + t) == Prepend(u, Prepend(v, Unescape(t)))
  {
    ScanRaw(v, t);
    ScanRaw(u, [v] + t);
    assert [u, v] + t == [u] + ([v] + t);
  }

  lemma Regroup(a: Text, b: Text, c: Text, d: Text)
    ensures (a + b) + c + d == a + (b + c + d)
  {}

  /** The first piece of a written string: a pair, or one unit. */
  function FirstPiece(s: Text): Text
    requires s != []
  {
    if StartsWithPair(s) then [s[0], s[1]] else EscapeUnit(s[0])
  }

  function AfterPiece(s: Text): Text
    requires s != []
  {
    if StartsWithPair(s) then s[2..] else s[1..]
  }

  lemma PieceScans(s: Text, t: Text)
    requires s != []
    ensures ScanBody(FirstPiece(s) + t) == Longer(|FirstPiece(s)|, ScanBody(t))
  {
    if StartsWithPair(s) { ScanPair(s[0], s[1], t); } else { ScanUnit(s[0], t); }
  }

  /** A written string scans to its closing quote. */
  lemma {:induction false} EscapeScans(s: Text, post: Text)
    ensures ScanBody(Escape(s) + [QUOTE] + post) == Read(|Escape(s)| + 1, post)
    decreases |s|
  {
    if s == [] {
      EmptyScans(post);
    } else {
      EscapeScans(AfterPiece(s), post);
      var piece, e := FirstPiece(s), Escape(AfterPiece(s));
      PieceScans(s, e + [QUOTE] + post);
      Regroup(piece, e, [QUOTE], post);
      assert Escape(s) == piece + e;
    }
  }

  lemma EmptyScans(post: Text)
    ensures ScanBody(Escape([]) + [QUOTE] + post) == Read(1, post)
  {
    assert Escape([]) + [QUOTE] + post == [QUOTE] + post;
  }

  /** A written string denotes the original. */
  lemma {:induction false} EscapeDenotes(s: Text)
    ensures Unescape(Escape(s)) == Decoded(s)
    decreases |s|
  {
    if s != [] {
      var k := if StartsWithPair(s) then 2 else 1;
      EscapeDenotes(s[k..]);
      if StartsWithPair(s) {
        ScanPair(s[0], s[1], Escape(s[2..]));
        assert s == [s[0]] + ([s[1]] + s[2..]);
      } else {
        ScanUnit(s[0], Escape(s[1..]));
        assert s == [s[0]] + s[1..];
      }
    }
  }

  // ----- Strings as the scanner returns them -----

  const MAX_STRING_BYTES: nat := 65536

  /** The length in UTF-8; a lone surrogate is encoded as the replacement character. */
  function Utf8Length(s: Text): nat {
    if s == [] then 0
    else if StartsWithPair(s) then 4 + Utf8Length(s[2..])
    else (if s[0] < 0x80 then 1 else if s[0] < 0x800 then 2 else 3) + Utf8Length(s[1..])
  }

  /** Normal form is a predicate given from outside. */
  predicate Admissible(s: Text, nfc: Text -> bool) {
    nfc(s) && Utf8Length(s) <= MAX_STRING_BYTES
  }

  function Checked(s: Text, rest: Text, nfc: Text -> bool): Read<Text> {
    if !nfc(s) then Refused("JSON_STRING_NFC")
    else if Utf8Length(s) > MAX_STRING_BYTES then Refused("JSON_STRING_STRING_BOUND")
    else Read(s, rest)
  }

  /** Decode and check a string body whose end has been found. */
  function Finished(body: Text, rest: Text, nfc: Text -> bool): (r: Read<Text>)
    ensures r.Read? ==> r.rest == rest
  {
    match Unescape(body)
    case Undecodable => Refused("JSON_STRING")
    case Decoded(s) => Checked(s, rest, nfc)
  }

  /** Read a string whose opening quote is the first unit. */
  function ReadString(t: Text, nfc: Text -> bool): (r: Read<Text>)
    requires t != []
    ensures r.Read? ==> |r.rest| < |t|
  {
    match ScanBody(t[1..])
    case Refused(code) => Refused(code)
    case Read(n, rest) => Finished(t[1..n], rest, nfc)
  }

  lemma QuoteParts(e: Text, post: Text)
    ensures var t := [QUOTE] + e + [QUOTE] + post; t[1..] == e + [QUOTE] + post && t[1..|e| + 1] == e
  {}

  lemma QuoteRoundTrip(s: Text, post: Text, nfc: Text -> bool)
    requires Admissible(s, nfc)
    ensures ReadString(Quote(s) + post, nfc) == Read(s, post)
  {
    EscapeScans(s, post);
    EscapeDenotes(s);
    QuoteParts(Escape(s), post);
  }

  // ----- Integers -----

  const MAX_SAFE: int := 9007199254740991

  /** A leading zero stands alone. */
  function NaturalLength(t: Text): (k: nat)
    ensures k <= |t| && forall i :: 0 <= i < k ==> IsDigit(t[i])
  {
    if t != [] && t[0] == ZERO then 1 else DigitRun(t)
  }

  function ReadNumber(t: Text): (r: Read<int>)
    ensures r.Read? ==> |r.rest| < |t|
  {
    var sign := if t != [] && t[0] == MINUS then 1 else 0;
    var k := NaturalLength(t[sign..]);
    if k == 0 then Refused("JSON_TOKEN")
    else
      var n: int := DigitsValue(t[sign..][..k]);
      if n > MAX_SAFE then Refused("JSON_INTEGER")
      else Read(if sign == 1 then -n else n, t[sign + k..])
  }

  lemma NaturalRoundTrip(n: nat, post: Text)
    requires post != [] ==> !IsDigit(post[0])
    ensures var d := Digits(n); NaturalLength(d + post) == |d| && (forall i :: 0 <= i < |d| ==> IsDigit(d[i])) && DigitsValue(d) == n
  {
    DigitsRoundTrip(n);
    RunOfDigits(Digits(n), post);
  }

  /** A written integer reads back, provided no digit follows it. */
  lemma NumberRoundTrip(n: int, post: Text)
    requires -MAX_SAFE <= n <= MAX_SAFE && (post != [] ==> !IsDigit(post[0]))
    ensures ReadNumber(NumberText(n) + post) == Read(n, post)
  {
    var m: nat := if n < 0 then -n else n;
    var d := Digits(m);
    NaturalRoundTrip(m, post);
    assert (d + post)[..|d|] == d && (d + post)[|d|..] == post;
    assert d != [] && IsDigit(d[0]);
    if n < 0 {
      assert NumberText(n) + post == [MINUS] + (d + post);
      ReadAfterSign(d + post, |d|, m, post);
    } else {
      ReadUnsigned(d + post, |d|, m, post);
    }
  }

  lemma ReadUnsigned(t: Text, k: nat, n: nat, post: Text)
    requires t != [] && t[0] != MINUS && k > 0 && NaturalLength(t) == k && DigitsValue(t[..k]) == n <= MAX_SAFE && t[k..] == post
    ensures ReadNumber(t) == Read(n, post)
  {
    assert t[0..] == t;
  }

  lemma ReadAfterSign(t: Text, k: nat, n: int, post: Text)
    requires k > 0 && NaturalLength(t) == k && DigitsValue(t[..k]) == n <= MAX_SAFE && t[k..] == post
    ensures ReadNumber([MINUS] + t) == Read(-n, post)
  {
    assert ([MINUS] + t)[1..] == t && ([MINUS] + t)[1 + k..] == t[k..];
  }
}
