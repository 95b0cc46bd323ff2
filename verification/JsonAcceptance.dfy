/** The scanner accepts every compact JSON text of a value within the bounds (`checked-flow-artifact.ts`,
    JsonScanner); with JsonSpelling this says exactly which texts it accepts and what they mean. */
module JsonAcceptance {
  import opened Folding
  import opened DigitText
  import opened JsonText
  import opened CanonicalJson
  import opened JsonSpelling

  // ----- Strings and numbers -----

  lemma EscapeIs(c: Unit, u: Unit)
    requires (c as int, u as int) in ESCAPES
    ensures IsShort(c) && FromShort(c) == u && c != LOWER_U
  {}

  lemma ShortScans(c: Unit, u: Unit, t: Text)
    requires IsShort(c) && FromShort(c) == u && c != LOWER_U
    ensures ScanBody([BACKSLASH, c] + t) == Longer(2, ScanBody(t))
    ensures Unescape([BACKSLASH, c] + t) == Prepend(u, Unescape(t))
  {
    assert ([BACKSLASH, c] + t)[2..] == t;
  }

  lemma HexIsRead(h: Text, u: Unit)
    requires HexOf(h, u)
    ensures FourHex(h) && FromHex(h) == u
  {
    var a, b, c, d :| IsHexDigit(h[0], a) && IsHexDigit(h[1], b) && IsHexDigit(h[2], c) && IsHexDigit(h[3], d)
      && u == a * 0x1000 + b * 0x100 + c * 0x10 + d;
    HexDigitIs(h[0], a);
    HexDigitIs(h[1], b);
    HexDigitIs(h[2], c);
    HexDigitIs(h[3], d);
  }

  lemma FourScans(h: Text, u: Unit, t: Text)
    requires |h| == 4 && FourHex(h) && FromHex(h) == u
    ensures ScanBody([BACKSLASH, LOWER_U] + h + t) == Longer(6, ScanBody(t))
    ensures Unescape([BACKSLASH, LOWER_U] + h + t) == Prepend(u, Unescape(t))
  {
    var x := [BACKSLASH, LOWER_U] + h + t;
    assert x[2..] == h + t && x[6..] == t;
    assert FourHex(h + t) && FromHex(h + t) == u;
  }

  lemma HexDigitIs(u: Unit, n: int)
    requires IsHexDigit(u, n)
    ensures IsHex(u) && HexValue(u) == n
  {}

  /** How much of a quoted text stands for one unit. */
  ghost function PieceLength(b: Text): nat {
    if b == [] then 0 else if b[0] != 0x5c then 1 else if |b| > 1 && b[1] != 0x75 then 2 else 6
  }

  /** The first piece of `b` stands for `u`. */
  ghost predicate PieceIs(b: Text, u: Unit) {
    var k := PieceLength(b);
    && 0 < k <= |b|
    && (k == 1 ==> b[0] == u >= 0x20 && u != 0x22 && u != 0x5c)
    && (k == 2 ==> b[0] == 0x5c && (b[1] as int, u as int) in ESCAPES)
    && (k == 6 ==> b[0] == 0x5c && b[1] == 0x75 && HexOf(b[2..6], u))
  }

  lemma PieceDenotes(b: Text, s: Text)
    requires Denotes(b, s) && b != []
    ensures PieceLength(b) <= |b| && s != [] && Denotes(b[PieceLength(b)..], s[1..]) && PieceIs(b, s[0])
  {}

  // The outcomes of scanning and decoding, folded.

  ghost predicate Scans(t: Text, n: nat, post: Text) {
    forall key {:trigger Unlock(key)} :: Unlock(key) ==> ScanBody(t) == Read(n, post)
  }

  ghost predicate Decodes(t: Text, s: Text) {
    forall key {:trigger Unlock(key)} :: Unlock(key) ==> Unescape(t) == Decoded(s)
  }

  lemma RawAccepted(u: Unit, t: Text, n: nat, post: Text, b: Text, s: Text)
    requires u >= 0x20 && u != QUOTE && u != BACKSLASH && Scans(t, n, post) && Decodes(b, s)
    ensures Scans([u] + t, 1 + n, post) && Decodes([u] + b, [u] + s)
  {
    assert Unlock(true);
    ScanRaw(u, t);
    ScanRaw(u, b);
  }

  lemma ShortAccepted(c: Unit, u: Unit, t: Text, n: nat, post: Text, b: Text, s: Text)
    requires (c as int, u as int) in ESCAPES && Scans(t, n, post) && Decodes(b, s)
    ensures Scans([BACKSLASH, c] + t, 2 + n, post) && Decodes([BACKSLASH, c] + b, [u] + s)
  {
    assert Unlock(true);
    EscapeIs(c, u);
    ShortScans(c, u, t);
    ShortScans(c, u, b);
  }

  lemma FourAccepted(h: Text, u: Unit, t: Text, n: nat, post: Text, b: Text, s: Text)
    requires HexOf(h, u) && Scans(t, n, post) && Decodes(b, s)
    ensures Scans([BACKSLASH, LOWER_U] + h + t, 6 + n, post) && Decodes([BACKSLASH, LOWER_U] + h + b, [u] + s)
  {
    assert Unlock(true);
    HexIsRead(h, u);
    FourScans(h, u, t);
    FourScans(h, u, b);
  }

  /** One unit in front of any text. */
  lemma PieceAccepted(b: Text, s: Text, t: Text, n: nat, post: Text)
    requires s != [] && PieceIs(b, s[0])
    requires Scans(t, n, post) && Decodes(b[PieceLength(b)..], s[1..])
    ensures var k := PieceLength(b); Scans(b[..k] + t, k + n, post) && Decodes(b[..k] + b[k..], [s[0]] + s[1..])
  {
    var k := PieceLength(b);
    if k == 1 {
      assert b[..1] == [b[0]];
      RawAccepted(b[0], t, n, post, b[k..], s[1..]);
    } else if k == 2 {
      assert b[..2] == [BACKSLASH, b[1]];
      ShortAccepted(b[1], s[0], t, n, post, b[k..], s[1..]);
    } else {
      assert b[..6] == [BACKSLASH, LOWER_U] + b[2..6];
      FourAccepted(b[2..6], s[0], t, n, post, b[k..], s[1..]);
    }
  }

  lemma NothingAccepted(post: Text)
    ensures Scans([] + ([QUOTE] + post), 1, post) && Decodes([], [])
  {
    assert [] + ([QUOTE] + post) == [QUOTE] + post;
  }

  /** The inside of a quoted text scans to its closing quote and decodes to what it denotes. */
  lemma {:induction false} BodyAccepted(b: Text, s: Text, post: Text)
    requires Denotes(b, s)
    ensures Scans(b + ([QUOTE] + post), |b| + 1, post) && Decodes(b, s)
    decreases |b|
  {
    if b == [] { NothingAccepted(post); } else {
      var k := PieceLength(b);
      PieceDenotes(b, s);
      BodyAccepted(b[k..], s[1..], post);
      PieceAccepted(b, s, b[k..] + ([QUOTE] + post), |b| - k + 1, post);
      Rejoin(b, k, [QUOTE] + post);
      assert s == [s[0]] + s[1..];
    }
  }

  lemma Rejoin(b: Text, k: nat, close: Text)
    requires k <= |b|
    ensures b == b[..k] + b[k..] && b + close == b[..k] + (b[k..] + close)
  {}

  lemma StringAccepted(s: Text, x: Text, post: Text, nfc: Text -> bool)
    requires QuotedString(s, x) && Admissible(s, nfc)
    ensures ReadString(x + post, nfc) == Read(s, post) && (x + post)[0] == QUOTE
  {
    var b := x[1..|x| - 1];
    BodyAccepted(b, s, post);
    assert x == [QUOTE] + b + [QUOTE];
    BodyRead(x + post, b, s, post, nfc);
  }

  lemma BodyRead(t: Text, b: Text, s: Text, post: Text, nfc: Text -> bool)
    requires t == [QUOTE] + b + [QUOTE] + post && Scans(b + ([QUOTE] + post), |b| + 1, post) && Decodes(b, s) && Admissible(s, nfc)
    ensures ReadString(t, nfc) == Read(s, post)
  {
    assert Unlock(true);
    assert t[1..] == b + ([QUOTE] + post) && t[1..|b| + 1] == b;
  }

  lemma NaturalAccepted(n: nat, d: Text, post: Text)
    requires SpellsNatural(n, d) && Separated(post)
    ensures NaturalLength(d + post) == |d| && (d + post)[..|d|] == d && (d + post)[|d|..] == post && DigitsValue(d) == n
  {
    DecimalIsDigitsValue(d);
    RunOfDigits(d, post);
    assert (d + post)[0] == d[0];
  }

  lemma NumberAccepted(n: int, x: Text, post: Text)
    requires SignedNumber(n, x) && -MAX_SAFE <= n <= MAX_SAFE && Separated(post)
    ensures ReadNumber(x + post) == Read(n, post)
  {
    if n >= 0 && SpellsNatural(n, x) {
      NaturalAccepted(n, x, post);
      ReadUnsigned(x + post, |x|, n, post);
    } else {
      var d := x[1..];
      NaturalAccepted(-n, d, post);
      assert x + post == [MINUS] + (d + post);
      ReadAfterSign(d + post, |d|, -n, post);
    }
  }

  // ----- Values -----

  /** A text of a value starts like none of the closing marks. */
  lemma DenotedStarts(v: Json, x: Text)
    requires Denoted(v, x)
    ensures x != [] && x[0] != CLOSE_ARRAY && x[0] != CLOSE_OBJECT
  {}

  /** The value may be read from its text. */
  ghost predicate Ready(v: Json, x: Text, spent: nat, depth: nat, nfc: Text -> bool) {
    Denoted(v, x) && Fits(v, depth, nfc) && spent + Count(v) <= MAX_VALUES
  }

  lemma NumberRead(n: int, x: Text, post: Text, spent: nat, depth: nat, nfc: Text -> bool)
    requires Ready(Num(n), x, spent, depth, nfc) && Separated(post)
    ensures ReadValue(x + post, spent, depth, nfc) == Scan(Num(n), post, spent + 1)
  {
    NumberAccepted(n, x, post);
    var t := x + post;
    assert t[0] == x[0] && (x[0] == 0x2d || 0x30 <= x[0] <= 0x39);
    assert !StartsWith(t, TRUE_TEXT) && !StartsWith(t, FALSE_TEXT) && !StartsWith(t, NULL_TEXT) by {
      assert TRUE_TEXT[0] == 0x74 && FALSE_TEXT[0] == 0x66 && NULL_TEXT[0] == 0x6e;
    }
  }

  lemma LeafAccepted(v: Json, x: Text, post: Text, spent: nat, depth: nat, nfc: Text -> bool)
    requires Ready(v, x, spent, depth, nfc) && !v.Arr? && !v.Obj? && Separated(post)
    ensures ReadValue(x + post, spent, depth, nfc) == Scan(v, post, spent + 1)
  {
    match v
    case Num(n) => NumberRead(n, x, post, spent, depth, nfc);
    case Str(s) => StringAccepted(s, x, post, nfc);
    case Null => WordAccepted(v, NULL_TEXT, post, spent, depth, nfc);
    case Bool(b) => WordAccepted(v, if b then TRUE_TEXT else FALSE_TEXT, post, spent, depth, nfc);
  }

  lemma WordAccepted(v: Json, x: Text, post: Text, spent: nat, depth: nat, nfc: Text -> bool)
    requires depth <= MAX_DEPTH && spent + 1 <= MAX_VALUES
    requires (v == Bool(true) && x == TRUE_TEXT) || (v == Bool(false) && x == FALSE_TEXT) || (v == Null && x == NULL_TEXT)
    ensures ReadValue(x + post, spent, depth, nfc) == Scan(v, post, spent + 1)
  {
    LiteralParts(x, post);
    assert (x + post)[0] == x[0];
  }

  lemma {:induction false} ValueAccepted(v: Json, x: Text, post: Text, spent: nat, depth: nat, nfc: Text -> bool)
    requires Ready(v, x, spent, depth, nfc) && Separated(post)
    ensures ValueGives(x + post, spent, depth, nfc, Scan(v, post, spent + Count(v)))
    decreases |x|, 1
  {
    match v
    case Arr(items) => ArrayAccepted(items, x, post, spent, depth, nfc);
    case Obj(fields) => ObjectAccepted(fields, x, post, spent, depth, nfc);
    case _ => LeafAccepted(v, x, post, spent, depth, nfc);
  }

  lemma FirstItem(items: seq<Json>, t: Text) returns (k: int)
    requires DenotedItems(items, t)
    ensures items != [] && ItemEnds(items, t, k)
  {
    k :| ItemEnds(items, t, k);
  }

  /** `DenotedFields`, folded. */
  ghost predicate SpellsFields(fs: seq<Field>, t: Text) {
    forall key {:trigger Unlock(key)} :: Unlock(key) ==> DenotedFields(fs, t)
  }

  lemma FirstField(fs: seq<Field>, t: Text) returns (j: int, k: int)
    requires SpellsFields(fs, t)
    ensures fs != [] && FieldEnds(fs, t, j, k)
  {
    assert Unlock(true);
    assert DenotedFields(fs, t);
    j, k :| FieldEnds(fs, t, j, k);
  }

  lemma FilledRecord(fields: seq<Field>, x: Text) returns (fs: seq<Field>)
    requires Denoted(Obj(fields), x) && fields != []
    ensures fields == PutAll([], fs) && SpellsFields(fs, x[1..])
  {
    assert DenotedRecord(fields, x[1..]);
    fs :| fields == PutAll([], fs) && DenotedFields(fs, x[1..]);
  }

  lemma {:induction false} ArrayAccepted(items: seq<Json>, x: Text, post: Text, spent: nat, depth: nat, nfc: Text -> bool)
    requires Ready(Arr(items), x, spent, depth, nfc)
    ensures ValueGives(x + post, spent, depth, nfc, Scan(Arr(items), post, spent + Count(Arr(items))))
    decreases |x|, 0
  {
    var r := Scan(Arr(items), post, spent + 1 + CountItems(items));
    if items == [] {
      EmptyArray(post, spent + 1, depth, nfc);
      assert (x + post)[1..] == [] + ([CLOSE_ARRAY] + post);
      OpenArray(x + post, spent, depth, nfc, r);
    } else {
      ItemsAccepted(items, x[1..], [], post, spent + 1, depth, nfc);
      assert [] + items == items;
      FilledItems(items, x, post, spent, depth, nfc, r);
    }
  }

  lemma FilledItems(items: seq<Json>, x: Text, post: Text, spent: nat, depth: nat, nfc: Text -> bool, r: Scan)
    requires x != [] && x[0] == OPEN_ARRAY && DenotedItems(items, x[1..]) && depth <= MAX_DEPTH && spent + 1 <= MAX_VALUES
    requires ItemsGive(x[1..] + post, spent + 1, depth, [], nfc, r)
    ensures ValueGives(x + post, spent, depth, nfc, r)
  {
    var k := FirstItem(items, x[1..]);
    DenotedStarts(items[0], x[1..][..k]);
    assert (x + post)[1..] == x[1..] + post;
    FilledArray(x[1..] + post, spent + 1, depth, nfc, r);
    OpenArray(x + post, spent, depth, nfc, r);
  }

  lemma OpenArray(t: Text, spent: nat, depth: nat, nfc: Text -> bool, r: Scan)
    requires depth <= MAX_DEPTH && spent + 1 <= MAX_VALUES && t != [] && t[0] == OPEN_ARRAY && ArrayGives(t[1..], spent + 1, depth, nfc, r)
    ensures ValueGives(t, spent, depth, nfc, r)
  {}

  lemma OpenObject(t: Text, spent: nat, depth: nat, nfc: Text -> bool, r: Scan)
    requires depth <= MAX_DEPTH && spent + 1 <= MAX_VALUES && t != [] && t[0] == OPEN_OBJECT && ObjectGives(t[1..], spent + 1, depth, nfc, r)
    ensures ValueGives(t, spent, depth, nfc, r)
  {}

  lemma SplitAt(x: Text, k: nat, post: Text)
    requires k < |x|
    ensures x + post == x[..k] + ([x[k]] + (x[k + 1..] + post))
  {}

  lemma {:induction false} ItemsAccepted(items: seq<Json>, x: Text, before: seq<Json>, post: Text, spent: nat, depth: nat, nfc: Text -> bool)
    requires DenotedItems(items, x) && |before| + |items| <= MAX_ARRAY_ITEMS && ItemsFit(items, depth + 1, nfc)
    requires spent + CountItems(items) <= MAX_VALUES
    ensures ItemsGive(x + post, spent, depth, before, nfc, Scan(Arr(before + items), post, spent + CountItems(items)))
    decreases |x|, 2
  {
    var k := FirstItem(items, x);
    var v, spent' := items[0], spent + Count(items[0]);
    var r := Scan(Arr(before + items), post, spent + CountItems(items));
    SplitAt(x, k, post);
    var rest := x[k + 1..] + post;
    ValueAccepted(v, x[..k], [x[k]] + rest, spent, depth + 1, nfc);
    if |items| == 1 {
      assert x[k] == x[k..][0] && rest == post && items == [v] && CountItems(items[1..]) == 0;
      ItemThenClose(x + post, v, post, spent, spent', depth, before, nfc);
    } else {
      ItemsAccepted(items[1..], x[k + 1..], before + [v], post, spent', depth, nfc);
      assert before + [v] + items[1..] == before + items;
      ItemThenMore(x + post, v, rest, spent, spent', depth, before, nfc, r);
    }
  }

  // ----- Records -----

  /** The keys of the fields to come are new. */
  ghost predicate KeysNew(before: seq<Field>, fs: seq<Field>) {
    && (forall i :: 0 <= i < |fs| ==> !HasKey(before, fs[i].key))
    && (forall i, j :: 0 <= i < j < |fs| ==> fs[i].key != fs[j].key)
  }

  lemma HasKeyPut(before: seq<Field>, f: Field, key: Text)
    ensures HasKey(Put(before, f), key) ==> HasKey(before, key) || key == f.key
  {
    var k := PutPlaces(before, f);
    var after := Put(before, f);
    if i :| 0 <= i < |after| && after[i].key == key {
      if i < k { assert before[i].key == key; } else if i > k { assert before[i - 1].key == key; }
    }
  }

  /** A field and what follows it, read from a text in which the key ends at `j` and the value at `k`. */
  lemma FieldThenMark(f: Field, x: Text, j: nat, k: nat, post: Text, spent: nat, spent': nat, depth: nat, before: seq<Field>, nfc: Text -> bool, r: Scan)
    requires j < k < |x| && QuotedString(f.key, x[..j]) && x[j] == COLON && |before| < MAX_RECORD_FIELDS
    requires Admissible(f.key, nfc) && !HasKey(before, f.key)
    requires ValueGives(x[j + 1..k] + ([x[k]] + (x[k + 1..] + post)), spent, depth + 1, nfc, Scan(f.value, [x[k]] + (x[k + 1..] + post), spent'))
    requires if x[k] == CLOSE_OBJECT then r == Scan(Obj(Put(before, f)), x[k + 1..] + post, spent')
             else x[k] == COMMA && FieldsGive(x[k + 1..] + post, spent', depth, Put(before, f), nfc, r)
    ensures FieldsGive(x + post, spent, depth, before, nfc, r)
  {
    var rest := x[k + 1..] + post;
    KeyThenValue(f.key, x, j, k, post, before, nfc);
    FieldThenRest(f, x + post, x[j + 1..k] + ([x[k]] + rest), x[k], rest, spent, spent', depth, before, nfc, r);
  }

  lemma KeyThenValue(key: Text, x: Text, j: nat, k: nat, post: Text, before: seq<Field>, nfc: Text -> bool)
    requires j < k < |x| && QuotedString(key, x[..j]) && x[j] == COLON && Admissible(key, nfc) && !HasKey(before, key)
    ensures ReadKey(x + post, before, nfc) == Read(key, x[j + 1..k] + ([x[k]] + (x[k + 1..] + post)))
  {
    var value := x[j + 1..k] + ([x[k]] + (x[k + 1..] + post));
    SplitAt(x, j, post);
    assert x[j + 1..] == x[j + 1..k] + [x[k]] + x[k + 1..];
    assert x[j + 1..] + post == value;
    StringAccepted(key, x[..j], [COLON] + value, nfc);
    KeyAccepted(x + post, key, value, before, nfc);
  }

  lemma FieldThenRest(f: Field, t: Text, value: Text, mark: Unit, rest: Text, spent: nat, spent': nat, depth: nat, before: seq<Field>, nfc: Text -> bool, r: Scan)
    requires ReadKey(t, before, nfc) == Read(f.key, value) && |before| < MAX_RECORD_FIELDS
    requires ValueGives(value, spent, depth + 1, nfc, Scan(f.value, [mark] + rest, spent'))
    requires if mark == CLOSE_OBJECT then r == Scan(Obj(Put(before, f)), rest, spent')
             else mark == COMMA && FieldsGive(rest, spent', depth, Put(before, f), nfc, r)
    ensures FieldsGive(t, spent, depth, before, nfc, r)
  {
    assert Unlock(true);
    assert ([mark] + rest)[1..] == rest;
  }

  lemma KeyAccepted(t: Text, key: Text, value: Text, before: seq<Field>, nfc: Text -> bool)
    requires t != [] && t[0] == QUOTE && ReadString(t, nfc) == Read(key, [COLON] + value) && !HasKey(before, key)
    ensures ReadKey(t, before, nfc) == Read(key, value)
  {
    assert ([COLON] + value)[1..] == value;
  }

  /** What is left after the first field is as good. */
  lemma NewAfterFirst(before: seq<Field>, fs: seq<Field>)
    requires fs != [] && KeysNew(before, fs)
    ensures KeysNew(Put(before, fs[0]), fs[1..]) && |Put(before, fs[0])| == |before| + 1
  {
    PutGrows(before, fs[0]);
    forall i | 0 <= i < |fs[1..]| ensures !HasKey(Put(before, fs[0]), fs[1..][i].key) {
      HasKeyPut(before, fs[0], fs[1..][i].key);
      assert fs[1..][i] == fs[i + 1];
    }
  }

  ghost predicate FieldsReady(fs: seq<Field>, depth: nat, nfc: Text -> bool) {
    forall i :: 0 <= i < |fs| ==> Admissible(fs[i].key, nfc) && Fits(fs[i].value, depth, nfc)
  }

  lemma {:induction false} FieldsAccepted(fs: seq<Field>, x: Text, before: seq<Field>, post: Text, spent: nat, depth: nat, nfc: Text -> bool)
    requires SpellsFields(fs, x) && |before| + |fs| <= MAX_RECORD_FIELDS && KeysNew(before, fs) && FieldsReady(fs, depth + 1, nfc)
    requires spent + CountFields(fs) <= MAX_VALUES
    ensures FieldsGive(x + post, spent, depth, before, nfc, Scan(Obj(PutAll(before, fs)), post, spent + CountFields(fs)))
    decreases |x|, 2
  {
    var j, k := FirstField(fs, x);
    var f, before', spent' := fs[0], Put(before, fs[0]), spent + Count(fs[0].value);
    var r := Scan(Obj(PutAll(before, fs)), post, spent + CountFields(fs));
    var rest := x[k + 1..] + post;
    ValueAccepted(f.value, x[j + 1..k], [x[k]] + rest, spent, depth + 1, nfc);
    if |fs| == 1 {
      assert x[k] == x[k..][0] && rest == post && fs[1..] == [];
      assert PutAll(before, fs) == PutAll(before', []) && CountFields(fs) == Count(f.value) + CountFields([]);
    } else {
      NewAfterFirst(before, fs);
      FieldsAccepted(fs[1..], x[k + 1..], before', post, spent', depth, nfc);
    }
    FieldThenMark(f, x, j, k, post, spent, spent', depth, before, nfc, r);
  }

  lemma {:induction false} ObjectAccepted(fields: seq<Field>, x: Text, post: Text, spent: nat, depth: nat, nfc: Text -> bool)
    requires Ready(Obj(fields), x, spent, depth, nfc)
    ensures ValueGives(x + post, spent, depth, nfc, Scan(Obj(fields), post, spent + Count(Obj(fields))))
    decreases |x|, 0, 1
  {
    ReadyRecord(fields, x, spent, depth, nfc);
    if fields == [] {
      EmptyAccepted(x, post, spent, depth, nfc);
    } else {
      var fs := FilledRecord(fields, x);
      RecordTaken(fields, fs, depth + 1, nfc);
      RecordAccepted(fs, x, post, spent, depth, nfc);
    }
  }

  lemma {:induction false} RecordAccepted(fs: seq<Field>, x: Text, post: Text, spent: nat, depth: nat, nfc: Text -> bool)
    requires x != [] && x[0] == OPEN_OBJECT && SpellsFields(fs, x[1..]) && depth <= MAX_DEPTH
    requires |fs| <= MAX_RECORD_FIELDS && KeysNew([], fs) && FieldsReady(fs, depth + 1, nfc) && spent + 1 + CountFields(fs) <= MAX_VALUES
    ensures ValueGives(x + post, spent, depth, nfc, Scan(Obj(PutAll([], fs)), post, spent + 1 + CountFields(fs)))
    decreases |x|, 0, 0
  {
    FieldsAccepted(fs, x[1..], [], post, spent + 1, depth, nfc);
    FilledAccepted(fs, x, post, spent, depth, nfc, Scan(Obj(PutAll([], fs)), post, spent + 1 + CountFields(fs)));
  }

  lemma ReadyRecord(fields: seq<Field>, x: Text, spent: nat, depth: nat, nfc: Text -> bool)
    requires Ready(Obj(fields), x, spent, depth, nfc)
    ensures x != [] && x[0] == OPEN_OBJECT && (fields == [] ==> x == [OPEN_OBJECT, CLOSE_OBJECT])
    ensures depth <= MAX_DEPTH && |fields| <= MAX_RECORD_FIELDS && FieldsFit(fields, depth + 1, nfc)
    ensures spent + 1 + CountFields(fields) <= MAX_VALUES && Count(Obj(fields)) == 1 + CountFields(fields)
  {}

  lemma EmptyAccepted(x: Text, post: Text, spent: nat, depth: nat, nfc: Text -> bool)
    requires x == [OPEN_OBJECT, CLOSE_OBJECT] && depth <= MAX_DEPTH && spent + 1 <= MAX_VALUES
    ensures ValueGives(x + post, spent, depth, nfc, Scan(Obj([]), post, spent + 1))
  {
    EmptyObject(post, spent + 1, depth, nfc);
    assert (x + post)[1..] == [] + ([CLOSE_OBJECT] + post);
    OpenObject(x + post, spent, depth, nfc, Scan(Obj([]), post, spent + 1));
  }

  lemma FilledAccepted(fs: seq<Field>, x: Text, post: Text, spent: nat, depth: nat, nfc: Text -> bool, r: Scan)
    requires x != [] && x[0] == OPEN_OBJECT && SpellsFields(fs, x[1..]) && depth <= MAX_DEPTH && spent + 1 <= MAX_VALUES
    requires FieldsGive(x[1..] + post, spent + 1, depth, [], nfc, r)
    ensures ValueGives(x + post, spent, depth, nfc, r)
  {
    var j, k := FirstField(fs, x[1..]);
    assert x[1..][0] == x[1..][..j][0];
    assert (x + post)[1..] == x[1..] + post;
    FilledObject(x[1..] + post, spent + 1, depth, nfc, r);
    OpenObject(x + post, spent, depth, nfc, r);
  }

  // ----- A record and the fields it was put together from -----

  ghost function KeySet(fs: seq<Field>): set<Text> {
    set f | f in fs :: f.key
  }

  ghost predicate KeysApart(fs: seq<Field>) {
    forall i, j :: 0 <= i < j < |fs| ==> fs[i].key != fs[j].key
  }

  lemma KeysApartLast(fs: seq<Field>)
    requires fs != []
    ensures var k := |fs| - 1; KeysApart(fs) <==> KeysApart(fs[..k]) && fs[k].key !in KeySet(fs[..k])
  {
    var init, last := fs[..|fs| - 1], fs[|fs| - 1];
    if last.key in KeySet(init) {
      var f :| f in init && f.key == last.key;
      var i :| 0 <= i < |init| && init[i] == f;
      assert fs[i].key == fs[|fs| - 1].key;
    } else {
      forall i | 0 <= i < |init| ensures fs[i].key != last.key { assert init[i] in init; }
    }
    assert forall i :: 0 <= i < |init| ==> fs[i] == init[i];
  }

  lemma {:induction false} FewKeys(fs: seq<Field>)
    ensures |KeySet(fs)| <= |fs| && (|KeySet(fs)| == |fs| <==> KeysApart(fs))
  {
    if fs != [] {
      var init, last := fs[..|fs| - 1], fs[|fs| - 1];
      FewKeys(init);
      KeysApartLast(fs);
      KeySetLast(init, last);
      assert fs == init + [last];
    }
  }

  lemma KeySetLast(init: seq<Field>, last: Field)
    ensures KeySet(init + [last]) == KeySet(init) + {last.key}
    ensures |KeySet(init + [last])| == |KeySet(init)| + if last.key in KeySet(init) then 0 else 1
  {
    assert KeySet(init + [last]) == KeySet(init) + {last.key};
    if last.key in KeySet(init) { assert KeySet(init) + {last.key} == KeySet(init); }
  }

  lemma PutHas(before: seq<Field>, f: Field)
    ensures forall x :: x in Put(before, f) <==> x == f || x in before
  {
    var k := PutPlaces(before, f);
    assert before == before[..k] + before[k..];
  }

  lemma {:induction false} PutAllHas(before: seq<Field>, fs: seq<Field>)
    ensures forall x :: x in PutAll(before, fs) <==> x in before || x in fs
    ensures |PutAll(before, fs)| == |before| + |fs|
    ensures CountFields(PutAll(before, fs)) == CountFields(before) + CountFields(fs)
    decreases |fs|
  {
    if fs != [] {
      PutHas(before, fs[0]);
      PutCounts(before, fs[0]);
      PutAllHas(Put(before, fs[0]), fs[1..]);
      assert fs == [fs[0]] + fs[1..];
    }
  }

  lemma RecordTaken(fields: seq<Field>, fs: seq<Field>, depth: nat, nfc: Text -> bool)
    requires fields == PutAll([], fs) && FieldsFit(fields, depth, nfc)
    ensures |fs| == |fields| && CountFields(fs) == CountFields(fields) && KeysNew([], fs) && FieldsReady(fs, depth, nfc)
  {
    PutAllHas([], fs);
    FewKeys(fields);
    FewKeys(fs);
    assert KeySet(fs) == KeySet(fields);
    forall i | 0 <= i < |fs| ensures Admissible(fs[i].key, nfc) && Fits(fs[i].value, depth, nfc) {
      assert fs[i] in fields;
      var j :| 0 <= j < |fields| && fields[j] == fs[i];
    }
  }

  // ----- The result -----

  /** How many values there are in a value, itself included. */
  ghost function Values(v: Json): nat {
    match v
    case Arr(items) => 1 + ValuesOfItems(items)
    case Obj(fields) => 1 + ValuesOfFields(fields)
    case _ => 1
  }

  ghost function ValuesOfItems(items: seq<Json>): nat {
    if items == [] then 0 else Values(items[0]) + ValuesOfItems(items[1..])
  }

  ghost function ValuesOfFields(fields: seq<Field>): nat {
    if fields == [] then 0 else Values(fields[0].value) + ValuesOfFields(fields[1..])
  }

  lemma {:induction false} CountIsValues(v: Json)
    ensures Count(v) == Values(v)
    decreases v, 1
  {
    match v
    case Arr(items) => ItemsCounted(items);
    case Obj(fields) => FieldsCounted(fields);
    case _ =>
  }

  lemma {:induction false} ItemsCounted(items: seq<Json>)
    ensures CountItems(items) == ValuesOfItems(items)
    decreases items, 0
  {
    if items != [] {
      CountIsValues(items[0]);
      ItemsCounted(items[1..]);
    }
  }

  lemma {:induction false} FieldsCounted(fields: seq<Field>)
    ensures CountFields(fields) == ValuesOfFields(fields)
    decreases fields, 0
  {
    if fields != [] {
      CountIsValues(fields[0].value);
      FieldsCounted(fields[1..]);
    }
  }

  /** The scanner reads a text as a value if and only if it is a JSON text of that value without white
      space, the value is within the bounds, and it has at most 16384 values inside. */
  lemma AcceptedExactly(t: Text, v: Json, nfc: Text -> bool)
    ensures Parse(t, nfc) == Parsed(v) <==> Denoted(v, t) && WithinBounds(v, 1, nfc) && Values(v) <= 16384
  {
    FitsIsWithinBounds(v, 1, nfc);
    CountIsValues(v);
    if Parse(t, nfc) == Parsed(v) {
      AcceptedIsDenoted(t, nfc);
      AcceptedTextReprints(t, nfc);
    }
    if Denoted(v, t) && WithinBounds(v, 1, nfc) && Values(v) <= 16384 {
      ValueAccepted(v, t, [], 0, 1, nfc);
      assert t + [] == t;
      assert Unlock(true);
    }
  }
}
