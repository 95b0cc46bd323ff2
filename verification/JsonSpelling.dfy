/** JSON texts by their grammar (sections 2 to 7 of RFC 8259, without white space), written out in
    literals: what the printer writes is such a text, and the scanner accepts nothing else
    (`checked-flow-artifact.ts`). */
module JsonSpelling {
  import opened DigitText
  import opened JsonText
  import opened JsonEscapes
  import opened CanonicalJson

  // ----- The printer -----

  /** A minus sign only before a negative number, decimal digits without a leading zero. */
  ghost predicate SpellsNumber(n: int, t: Text) {
    if n < 0 then |t| > 0 && t[0] == 0x2d && SpellsNatural(-n, t[1..]) else SpellsNatural(n, t)
  }

  ghost predicate SpellsNatural(n: nat, t: Text) {
    t != [] && AllDigits(t) && (t[0] == 0x30 ==> |t| == 1) && Decimal(t) == n
  }

  ghost predicate AllDigits(t: Text) {
    forall i :: 0 <= i < |t| ==> 0x30 <= t[i] <= 0x39
  }

  ghost function Decimal(t: Text): int {
    if t == [] then 0 else 10 * Decimal(t[..|t| - 1]) + (t[|t| - 1] as int - 0x30)
  }

  ghost predicate SpellsString(s: Text, t: Text) {
    |t| >= 2 && t[0] == 0x22 && t[|t| - 1] == 0x22 && WrittenForm(s, t[1..|t| - 1])
  }

  /** `null`, `true`, `false`, numbers, strings, items in brackets, fields in braces. */
  ghost predicate Spells(v: Json, t: Text)
    decreases |t|, 1
  {
    match v
    case Null => t == [0x6e, 0x75, 0x6c, 0x6c]
    case Bool(true) => t == [0x74, 0x72, 0x75, 0x65]
    case Bool(false) => t == [0x66, 0x61, 0x6c, 0x73, 0x65]
    case Num(n) => SpellsNumber(n, t)
    case Str(s) => SpellsString(s, t)
    case Arr(items) => |t| >= 2 && t[0] == 0x5b && t[|t| - 1] == 0x5d && SpellsItems(items, t[1..|t| - 1])
    case Obj(fields) => |t| >= 2 && t[0] == 0x7b && t[|t| - 1] == 0x7d && SpellsFields(fields, t[1..|t| - 1])
  }

  /** Items separated by commas. */
  ghost predicate SpellsItems(items: seq<Json>, t: Text)
    decreases |t|, 2, |items|
  {
    if items == [] then t == []
    else if |items| == 1 then Spells(items[0], t)
    else exists k :: 0 <= k < |t| && Spells(items[0], t[..k]) && t[k] == 0x2c && SpellsItems(items[1..], t[k + 1..])
  }

  /** A quoted key, a colon and a value. */
  ghost predicate SpellsField(f: Field, t: Text)
    decreases |t|, 2
  {
    exists k :: 0 <= k < |t| && SpellsString(f.key, t[..k]) && t[k] == 0x3a && Spells(f.value, t[k + 1..])
  }

  ghost predicate SpellsFields(fields: seq<Field>, t: Text)
    decreases |t|, 3, |fields|
  {
    if fields == [] then t == []
    else if |fields| == 1 then SpellsField(fields[0], t)
    else exists k :: 0 <= k < |t| && SpellsField(fields[0], t[..k]) && t[k] == 0x2c && SpellsFields(fields[1..], t[k + 1..])
  }

  lemma {:induction false} DecimalIsDigitsValue(t: Text)
    requires AllDigits(t)
    ensures (forall i :: 0 <= i < |t| ==> IsDigit(t[i])) && Decimal(t) == DigitsValue(t)
  {
    if t != [] { DecimalIsDigitsValue(t[..|t| - 1]); }
  }

  lemma NaturalSpelled(n: nat)
    ensures SpellsNatural(n, Digits(n))
  {
    DigitsRoundTrip(n);
    DecimalIsDigitsValue(Digits(n));
    assert Digits(n)[0] == 0x30 ==> n == 0 && Digits(n) == [ZERO];
  }

  lemma NumberSpelled(n: int)
    ensures SpellsNumber(n, NumberText(n))
  {
    NaturalSpelled(if n < 0 then -n else n);
    assert n < 0 ==> NumberText(n)[1..] == Digits(-n);
  }

  lemma StringSpelled(s: Text)
    ensures SpellsString(s, Quote(s))
  {
    EscapeForm(s);
    assert Quote(s)[1..|Quote(s)| - 1] == Escape(s);
  }

  /** The printed form of a value is its spelling. */
  lemma {:induction false} PrintSpells(v: Json)
    ensures Spells(v, Print(v))
    decreases v, 1
  {
    match v
    case Num(n) => NumberSpelled(n);
    case Str(s) => StringSpelled(s);
    case Arr(items) =>
      ItemsSpelled(items);
      assert Print(v)[1..|Print(v)| - 1] == PrintItems(items);
    case Obj(fields) =>
      FieldsSpelled(fields);
      assert Print(v)[1..|Print(v)| - 1] == PrintFields(fields);
    case _ =>
  }

  lemma {:induction false} ItemsSpelled(items: seq<Json>)
    ensures SpellsItems(items, PrintItems(items))
    decreases items, 0
  {
    if items != [] {
      PrintSpells(items[0]);
      if |items| > 1 {
        ItemsSpelled(items[1..]);
        Splits(Print(items[0]), 0x2c, PrintItems(items[1..]));
      }
    }
  }

  lemma {:induction false} FieldsSpelled(fields: seq<Field>)
    ensures SpellsFields(fields, PrintFields(fields))
    decreases fields, 0
  {
    if fields != [] {
      FieldSpelled(fields[0]);
      if |fields| > 1 {
        FieldsSpelled(fields[1..]);
        Splits(PrintField(fields[0]), 0x2c, PrintFields(fields[1..]));
      }
    }
  }

  lemma {:induction false} FieldSpelled(f: Field)
    ensures SpellsField(f, PrintField(f))
    decreases f, 0
  {
    StringSpelled(f.key);
    PrintSpells(f.value);
    Splits(Quote(f.key), 0x3a, Print(f.value));
  }

  lemma Splits(a: Text, u: Unit, b: Text)
    ensures var t := a + [u] + b; |a| < |t| && t[..|a|] == a && t[|a|] == u && t[|a| + 1..] == b
  {}

  // ----- The scanner -----

  /** The string that the inside of a quoted text denotes: raw units, two-unit escapes, four-digit escapes. */
  ghost predicate Denotes(t: Text, s: Text)
    decreases |t|
  {
    if t == [] then s == []
    else if s == [] then false
    else if t[0] != 0x5c then t[0] == s[0] >= 0x20 && t[0] != 0x22 && Denotes(t[1..], s[1..])
    else if |t| < 2 then false
    else if t[1] != 0x75 then (t[1], s[0]) in ESCAPES && Denotes(t[2..], s[1..])
    else |t| >= 6 && HexOf(t[2..6], s[0]) && Denotes(t[6..], s[1..])
  }

  /** The letters after a backslash and what they stand for. */
  const ESCAPES: set<(int, int)> := {
    (0x22, 0x22), (0x5c, 0x5c), (0x2f, 0x2f), (0x62, 0x08), (0x66, 0x0c), (0x6e, 0x0a), (0x72, 0x0d), (0x74, 0x09)}

  ghost predicate IsHexDigit(u: Unit, n: int) {
    || (0x30 <= u <= 0x39 && n == u - 0x30)
    || (0x41 <= u <= 0x46 && n == u - 0x41 + 10)
    || (0x61 <= u <= 0x66 && n == u - 0x61 + 10)
  }

  ghost predicate HexOf(h: Text, u: Unit) {
    |h| == 4 && exists a, b, c, d ::
      && IsHexDigit(h[0], a) && IsHexDigit(h[1], b) && IsHexDigit(h[2], c) && IsHexDigit(h[3], d)
      && u == a * 0x1000 + b * 0x100 + c * 0x10 + d
  }

  ghost predicate QuotedString(s: Text, t: Text) {
    |t| >= 2 && t[0] == 0x22 && t[|t| - 1] == 0x22 && Denotes(t[1..|t| - 1], s)
  }

  /** Like a printed number, but zero may have a sign. */
  ghost predicate SignedNumber(n: int, t: Text) {
    (n >= 0 && SpellsNatural(n, t)) || (n <= 0 && |t| > 0 && t[0] == 0x2d && SpellsNatural(-n, t[1..]))
  }

  /** A text of the value: escapes are free, and the fields of a record stand in any order. */
  ghost predicate Denoted(v: Json, t: Text)
    decreases |t|, 1
  {
    match v
    case Null => t == [0x6e, 0x75, 0x6c, 0x6c]
    case Bool(true) => t == [0x74, 0x72, 0x75, 0x65]
    case Bool(false) => t == [0x66, 0x61, 0x6c, 0x73, 0x65]
    case Num(n) => SignedNumber(n, t)
    case Str(s) => QuotedString(s, t)
    case Arr(items) => |t| >= 2 && t[0] == 0x5b && if items == [] then t == [0x5b, 0x5d] else DenotedItems(items, t[1..])
    case Obj(fields) => |t| >= 2 && t[0] == 0x7b && if fields == [] then t == [0x7b, 0x7d] else DenotedRecord(fields, t[1..])
  }

  /** The record that arises from adding fields one by one. */
  ghost function PutAll(before: seq<Field>, fs: seq<Field>): seq<Field>
    decreases |fs|
  {
    if fs == [] then before else PutAll(Put(before, fs[0]), fs[1..])
  }

  ghost predicate DenotedRecord(fields: seq<Field>, t: Text)
    decreases |t|, 1
  {
    exists fs :: fields == PutAll([], fs) && DenotedFields(fs, t)
  }

  /** Items separated by commas and the closing bracket; the first item ends at `k`. */
  ghost predicate DenotedItems(items: seq<Json>, t: Text)
    decreases |t|, 0
  {
    items != [] && exists k :: ItemEnds(items, t, k)
  }

  ghost predicate ItemEnds(items: seq<Json>, t: Text, k: int)
    requires items != []
    decreases |t|, -1
  {
    && 0 <= k < |t| && Denoted(items[0], t[..k])
    && if |items| == 1 then t[k..] == [0x5d] else t[k] == 0x2c && DenotedItems(items[1..], t[k + 1..])
  }

  /** Fields separated by commas and the closing brace; the first key ends at `j`, its value at `k`. */
  ghost predicate DenotedFields(fs: seq<Field>, t: Text)
    decreases |t|, 0
  {
    fs != [] && exists j, k :: FieldEnds(fs, t, j, k)
  }

  ghost predicate FieldEnds(fs: seq<Field>, t: Text, j: int, k: int)
    requires fs != []
    decreases |t|, -1
  {
    && 0 <= j < k < |t| && QuotedString(fs[0].key, t[..j]) && t[j] == 0x3a && Denoted(fs[0].value, t[j + 1..k])
    && if |fs| == 1 then t[k..] == [0x7d] else t[k] == 0x2c && DenotedFields(fs[1..], t[k + 1..])
  }

  // ----- What is read is denoted -----

  /** The part of `t` in front of `rest`. */
  ghost function Taken(t: Text, rest: Text): Text
    requires |rest| <= |t|
  {
    t[..|t| - |rest|]
  }

  ghost predicate Leaves(t: Text, rest: Text) {
    |rest| <= |t| && rest == t[|t| - |rest|..]
  }

  lemma HexIs(h: Text)
    requires FourHex(h) && |h| == 4
    ensures HexOf(h, FromHex(h))
  {
    assert IsHexDigit(h[0], HexValue(h[0])) && IsHexDigit(h[1], HexValue(h[1]));
    assert IsHexDigit(h[2], HexValue(h[2])) && IsHexDigit(h[3], HexValue(h[3]));
  }

  lemma {:induction false} UnescapeDenotes(t: Text, s: Text)
    requires Unescape(t) == Decoded(s)
    ensures Denotes(t, s)
    decreases |t|
  {
    if t != [] {
      var k := StepLength(t);
      FirstUnit(t, s);
      FirstStep(t);
      UnescapeDenotes(t[k..], s[1..]);
      if k == 2 { PrependSplits(FromShort(t[1]), Unescape(t[2..]), s); }
      if k == 6 {
        PrependSplits(FromHex(t[2..]), Unescape(t[6..]), s);
        HexIs(t[2..6]);
        assert FromHex(t[2..6]) == FromHex(t[2..]);
      }
    }
  }

  lemma StringDenoted(t: Text, nfc: Text -> bool, s: Text, rest: Text)
    requires t != [] && t[0] == 0x22 && ReadString(t, nfc) == Read(s, rest)
    ensures Leaves(t, rest) && QuotedString(s, Taken(t, rest))
  {
    var n := ScanBody(t[1..]).value;
    UnescapeDenotes(t[1..n], s);
    assert rest == t[n + 1..];
    assert t[..n + 1][1..n] == t[1..n];
  }

  lemma NumberDenoted(t: Text, n: int, rest: Text)
    requires ReadNumber(t) == Read(n, rest)
    ensures Leaves(t, rest) && SignedNumber(n, Taken(t, rest))
  {
    var sign := if t != [] && t[0] == MINUS then 1 else 0;
    var k := NaturalLength(t[sign..]);
    var d := t[sign..][..k];
    DecimalIsDigitsValue(d);
    assert SpellsNatural(DigitsValue(d), d);
    assert rest == t[sign + k..] && Taken(t, rest) == t[..sign + k];
    assert sign == 1 ==> t[..sign + k][1..] == d;
    assert sign == 0 ==> t[..sign + k] == d;
  }

  lemma {:induction false} ValueDenoted(t: Text, spent: nat, depth: nat, nfc: Text -> bool, v: Json, rest: Text)
    requires ReadValue(t, spent, depth, nfc).Scan? && ReadValue(t, spent, depth, nfc).value == v && ReadValue(t, spent, depth, nfc).rest == rest
    ensures Leaves(t, rest) && Denoted(v, Taken(t, rest))
    decreases |t|, 1
  {
    if t[0] == OPEN_OBJECT {
      ObjectDenoted(t, spent + 1, depth, nfc, v, rest);
    } else if t[0] == OPEN_ARRAY {
      ArrayDenoted(t, spent + 1, depth, nfc, v, rest);
    } else if t[0] == QUOTE {
      StringDenoted(t, nfc, v.s, rest);
    } else if StartsWith(t, TRUE_TEXT) || StartsWith(t, FALSE_TEXT) || StartsWith(t, NULL_TEXT) {
    } else {
      NumberDenoted(t, v.n, rest);
    }
  }

  lemma {:induction false} ArrayDenoted(t: Text, spent: nat, depth: nat, nfc: Text -> bool, v: Json, rest: Text)
    requires t != [] && t[0] == OPEN_ARRAY
    requires var r := ReadArray(t[1..], spent, depth, nfc); r.Scan? && r.value == v && r.rest == rest
    ensures Leaves(t, rest) && Denoted(v, Taken(t, rest))
    decreases |t|, 0
  {
    if |t| > 1 && t[1] == CLOSE_ARRAY {
      assert Taken(t, rest) == [0x5b, 0x5d];
    } else {
      var items := ItemsDenoted(t[1..], spent, depth, [], nfc, ReadArray(t[1..], spent, depth, nfc));
      assert Taken(t, rest)[1..] == Taken(t[1..], rest) && [] + items == items;
    }
  }

  lemma TakenAfter(t: Text, after: Text, rest: Text)
    requires Leaves(t, after) && after != [] && Leaves(after[1..], rest)
    ensures Leaves(t, rest) && Taken(t, rest)[|t| - |after| + 1..] == Taken(after[1..], rest)
  {
    assert after[1..] == t[|t| - |after| + 1..];
  }

  /** An item, and then the closing bracket or a comma and more items. */
  lemma ItemStep(t: Text, item: Json, after: Text, more: seq<Json>, rest: Text)
    requires Leaves(t, after) && Denoted(item, Taken(t, after)) && after != []
    requires if more == [] then after[0] == 0x5d && rest == after[1..]
             else after[0] == 0x2c && Leaves(after[1..], rest) && DenotedItems(more, Taken(after[1..], rest))
    ensures Leaves(t, rest) && DenotedItems([item] + more, Taken(t, rest))
  {
    var k := |t| - |after|;
    if more != [] { TakenAfter(t, after, rest); }
    var x := Taken(t, rest);
    assert ([item] + more)[1..] == more;
    assert x[..k] == t[..k] && x[k] == t[k];
    assert more == [] ==> x[k..] == [0x5d];
    assert more != [] ==> x[k + 1..] == Taken(after[1..], rest);
    assert ItemEnds([item] + more, x, k);
  }

  /** What reading one item establishes. */
  ghost predicate ItemRead(t: Text, depth: nat, before: seq<Json>, nfc: Text -> bool, r: Scan, item: Json, after: Text, spent: nat) {
    && Leaves(t, after) && |after| < |t| && Denoted(item, Taken(t, after)) && after != []
    && if after[0] == 0x5d then r == Scan(Arr(before + [item]), after[1..], spent)
       else after[0] == 0x2c && r == ReadItems(after[1..], spent, depth, before + [item], nfc)
  }

  lemma {:induction false} ItemDenoted(t: Text, spent: nat, depth: nat, before: seq<Json>, nfc: Text -> bool) returns (item: Json, after: Text, spent': nat)
    requires ReadItems(t, spent, depth, before, nfc).Scan?
    ensures ItemRead(t, depth, before, nfc, ReadItems(t, spent, depth, before, nfc), item, after, spent')
    decreases |t|, 2
  {
    var first := ReadValue(t, spent, depth + 1, nfc);
    item, after, spent' := first.value, first.rest, first.spent;
    ValueDenoted(t, spent, depth + 1, nfc, item, after);
  }

  lemma Associates(before: seq<Json>, item: Json, more: seq<Json>)
    ensures before + [item] + more == before + ([item] + more)
  {}

  lemma {:induction false} ItemsDenoted(t: Text, spent: nat, depth: nat, before: seq<Json>, nfc: Text -> bool, r: Scan) returns (items: seq<Json>)
    requires ReadItems(t, spent, depth, before, nfc) == r && r.Scan?
    ensures r.value == Arr(before + items) && items != [] && Leaves(t, r.rest) && DenotedItems(items, Taken(t, r.rest))
    decreases |t|, 3
  {
    var item, after, spent' := ItemDenoted(t, spent, depth, before, nfc);
    var more := [];
    if after[0] != 0x5d {
      more := ItemsDenoted(after[1..], spent', depth, before + [item], nfc, r);
      Associates(before, item, more);
    }
    ItemStep(t, item, after, more, r.rest);
    items := [item] + more;
  }

  lemma {:induction false} ObjectDenoted(t: Text, spent: nat, depth: nat, nfc: Text -> bool, v: Json, rest: Text)
    requires t != [] && t[0] == OPEN_OBJECT
    requires var r := ReadObject(t[1..], spent, depth, nfc); r.Scan? && r.value == v && r.rest == rest
    ensures Leaves(t, rest) && Denoted(v, Taken(t, rest))
    decreases |t|, 0
  {
    if |t| > 1 && t[1] == CLOSE_OBJECT {
      assert Taken(t, rest) == [0x7b, 0x7d];
    } else {
      var fs := FieldsDenoted(t[1..], spent, depth, [], nfc, ReadObject(t[1..], spent, depth, nfc));
      assert Taken(t, rest)[1..] == Taken(t[1..], rest);
      PutAllGrows([], fs);
      assert DenotedRecord(v.fields, Taken(t, rest)[1..]);
    }
  }

  lemma {:induction false} PutGrows(fields: seq<Field>, f: Field)
    ensures |Put(fields, f)| == |fields| + 1
  {
    if fields != [] && !Precedes(fields[|fields| - 1].key, f.key) { PutGrows(fields[..|fields| - 1], f); }
  }

  lemma {:induction false} PutAllGrows(before: seq<Field>, fs: seq<Field>)
    ensures |PutAll(before, fs)| == |before| + |fs|
    decreases |fs|
  {
    if fs != [] {
      PutGrows(before, fs[0]);
      PutAllGrows(Put(before, fs[0]), fs[1..]);
    }
  }

  lemma KeyDenoted(t: Text, before: seq<Field>, nfc: Text -> bool, key: Text, after: Text)
    requires ReadKey(t, before, nfc) == Read(key, after)
    ensures Leaves(t, after) && var j := |t| - |after| - 1; 0 <= j < |t| && QuotedString(key, t[..j]) && t[j] == 0x3a
  {
    var rest := ReadString(t, nfc).rest;
    StringDenoted(t, nfc, key, rest);
    assert after == rest[1..] && rest == t[|t| - |rest|..];
  }

  /** A key, a colon and a value, and then the closing brace or a comma and more fields. */
  lemma FieldStep(t: Text, f: Field, afterKey: Text, after: Text, more: seq<Field>, rest: Text)
    requires Leaves(t, afterKey) && |afterKey| < |t| && Leaves(afterKey, after) && after != []
    requires var j := |t| - |afterKey| - 1; QuotedString(f.key, t[..j]) && t[j] == 0x3a
    requires Denoted(f.value, Taken(afterKey, after))
    requires if more == [] then after[0] == 0x7d && rest == after[1..]
             else after[0] == 0x2c && Leaves(after[1..], rest) && DenotedFields(more, Taken(after[1..], rest))
    ensures Leaves(t, rest) && DenotedFields([f] + more, Taken(t, rest))
  {
    var j, k := |t| - |afterKey| - 1, |t| - |after|;
    assert Leaves(t, after);
    if more != [] { TakenAfter(t, after, rest); }
    var x := Taken(t, rest);
    assert ([f] + more)[1..] == more;
    assert x[..j] == t[..j] && x[j] == t[j] && x[k] == t[k];
    assert x[j + 1..k] == t[j + 1..k] == Taken(afterKey, after);
    assert more == [] ==> x[k..] == [0x7d];
    assert more != [] ==> x[k + 1..] == Taken(after[1..], rest);
    assert FieldEnds([f] + more, x, j, k);
  }

  /** What reading one field establishes. */
  ghost predicate FieldRead(t: Text, depth: nat, before: seq<Field>, nfc: Text -> bool, r: Scan, f: Field, afterKey: Text, after: Text, spent: nat) {
    && Leaves(t, afterKey) && |after| <= |afterKey| < |t| && Leaves(afterKey, after) && after != []
    && (var j := |t| - |afterKey| - 1; QuotedString(f.key, t[..j]) && t[j] == 0x3a)
    && Denoted(f.value, Taken(afterKey, after))
    && if after[0] == 0x7d then r == Scan(Obj(Put(before, f)), after[1..], spent)
       else after[0] == 0x2c && r == ReadFields(after[1..], spent, depth, Put(before, f), nfc)
  }

  lemma {:induction false} FieldDenoted(t: Text, spent: nat, depth: nat, before: seq<Field>, nfc: Text -> bool)
    returns (f: Field, afterKey: Text, after: Text, spent': nat)
    requires ReadFields(t, spent, depth, before, nfc).Scan?
    ensures FieldRead(t, depth, before, nfc, ReadFields(t, spent, depth, before, nfc), f, afterKey, after, spent')
    decreases |t|, 2
  {
    var key := ReadKey(t, before, nfc);
    afterKey := key.rest;
    var first := ReadValue(afterKey, spent, depth + 1, nfc);
    KeyDenoted(t, before, nfc, key.value, afterKey);
    ValueDenoted(afterKey, spent, depth + 1, nfc, first.value, first.rest);
    f, after, spent' := Field(key.value, first.value), first.rest, first.spent;
  }

  lemma {:induction false} FieldsDenoted(t: Text, spent: nat, depth: nat, before: seq<Field>, nfc: Text -> bool, r: Scan) returns (fs: seq<Field>)
    requires ReadFields(t, spent, depth, before, nfc) == r && r.Scan?
    ensures r.value == Obj(PutAll(before, fs)) && Leaves(t, r.rest) && DenotedFields(fs, Taken(t, r.rest))
    decreases |t|, 3
  {
    var f, afterKey, after, spent' := FieldDenoted(t, spent, depth, before, nfc);
    var more := [];
    if after[0] != 0x7d { more := FieldsDenoted(after[1..], spent', depth, Put(before, f), nfc, r); }
    FieldStep(t, f, afterKey, after, more, r.rest);
    fs := [f] + more;
    assert fs[1..] == more && fs[0] == f;
  }

  /** Whatever text is accepted is a JSON text, without white space, of the value it is read as. */
  lemma AcceptedIsDenoted(t: Text, nfc: Text -> bool)
    requires Parse(t, nfc).Parsed?
    ensures Denoted(Parse(t, nfc).value, t)
  {
    var r := ReadValue(t, 0, 1, nfc);
    ValueDenoted(t, 0, 1, nfc, r.value, r.rest);
    assert Taken(t, []) == t;
  }

  // ----- The order of a record -----

  /** A key that a JavaScript object takes for an array index. */
  ghost predicate IndexKey(key: Text) {
    key != [] && AllDigits(key) && (key[0] == 0x30 ==> |key| == 1) && Decimal(key) < 0xffff_ffff
  }

  /** A new field goes last when its key is no array index, and otherwise behind the smaller array indices
      and before all else; the other fields stay as they stand. */
  ghost predicate PutAt(fields: seq<Field>, f: Field, k: int, after: seq<Field>) {
    && 0 <= k <= |fields| && after == fields[..k] + [f] + fields[k..]
    && if IndexKey(f.key) then
         && (k > 0 ==> IndexKey(fields[k - 1].key) && Decimal(fields[k - 1].key) <= Decimal(f.key))
         && (forall i :: k <= i < |fields| ==> !(IndexKey(fields[i].key) && Decimal(fields[i].key) <= Decimal(f.key)))
       else k == |fields|
  }

  lemma IndexKeyIs(key: Text)
    ensures IsIndex(key) <==> IndexKey(key)
    ensures IndexKey(key) ==> DigitsValue(key) == Decimal(key)
  {
    if AllDigits(key) { DecimalIsDigitsValue(key); }
    assert (forall i :: 0 <= i < |key| ==> IsDigit(key[i])) <==> AllDigits(key);
  }

  lemma {:induction false} PutPlaces(fields: seq<Field>, f: Field) returns (k: nat)
    ensures PutAt(fields, f, k, Put(fields, f))
    decreases |fields|
  {
    IndexKeyIs(f.key);
    if fields == [] { k := 0; } else {
      var last := fields[|fields| - 1];
      IndexKeyIs(last.key);
      if Precedes(last.key, f.key) {
        k := |fields|;
        assert fields[..k] + [f] + fields[k..] == fields + [f];
      } else {
        var init := fields[..|fields| - 1];
        k := PutPlaces(init, f);
        assert init[..k] + [f] + init[k..] + [last] == fields[..k] + [f] + fields[k..];
      }
    }
  }

  // ----- The bounds -----

  /** The bytes of a text (RFC 3629); a lone surrogate is encoded as the replacement character U+FFFD. */
  ghost function Utf8(s: Text): seq<int>
    decreases |s|
  {
    if s == [] then []
    else if PairAhead(s) then
      var c := 0x1_0000 + (s[0] as int - 0xd800) * 0x400 + (s[1] as int - 0xdc00);
      [0xf0 + c / 0x4_0000, 0x80 + c / 0x1000 % 0x40, 0x80 + c / 0x40 % 0x40, 0x80 + c % 0x40] + Utf8(s[2..])
    else
      var c := if 0xd800 <= s[0] <= 0xdfff then 0xfffd else s[0];
      (if c < 0x80 then [c]
       else if c < 0x800 then [0xc0 + c / 0x40, 0x80 + c % 0x40]
       else [0xe0 + c / 0x1000, 0x80 + c / 0x40 % 0x40, 0x80 + c % 0x40]) + Utf8(s[1..])
  }

  lemma {:induction false} Utf8LengthIs(s: Text)
    ensures |Utf8(s)| == Utf8Length(s)
    decreases |s|
  {
    if s != [] { Utf8LengthIs(if PairAhead(s) then s[2..] else s[1..]); }
  }

  /** At most 64 levels, 8192 items, 32 fields with different keys in record order, 65536 bytes in a string
      and safe integers. */
  ghost predicate WithinBounds(v: Json, depth: nat, nfc: Text -> bool) {
    depth <= 64 && match v
      case Null => true
      case Bool(_) => true
      case Num(n) => -9007199254740991 <= n <= 9007199254740991
      case Str(s) => nfc(s) && |Utf8(s)| <= 65536
      case Arr(items) => |items| <= 8192 && forall i :: 0 <= i < |items| ==> WithinBounds(items[i], depth + 1, nfc)
      case Obj(fields) =>
        && |fields| <= 32
        && (forall i :: 0 <= i < |fields| ==> nfc(fields[i].key) && |Utf8(fields[i].key)| <= 65536 && WithinBounds(fields[i].value, depth + 1, nfc))
        && (forall i, j :: 0 <= i < j < |fields| ==> fields[i].key != fields[j].key && InRecordOrder(fields[i].key, fields[j].key))
  }

  /** Array indices stand first and ascend. */
  ghost predicate InRecordOrder(a: Text, b: Text) {
    IndexKey(b) ==> IndexKey(a) && Decimal(a) <= Decimal(b)
  }

  lemma OrderIs(a: Text, b: Text)
    ensures Precedes(a, b) <==> InRecordOrder(a, b)
  {
    IndexKeyIs(a);
    IndexKeyIs(b);
  }

  /** The bounds under which printing and scanning undo each other, in figures. */
  lemma {:induction false} FitsIsWithinBounds(v: Json, depth: nat, nfc: Text -> bool)
    ensures Fits(v, depth, nfc) <==> WithinBounds(v, depth, nfc)
    decreases v
  {
    match v
    case Str(s) => Utf8LengthIs(s);
    case Arr(items) =>
      forall i | 0 <= i < |items| ensures Fits(items[i], depth + 1, nfc) <==> WithinBounds(items[i], depth + 1, nfc) {
        FitsIsWithinBounds(items[i], depth + 1, nfc);
      }
    case Obj(fields) =>
      forall i | 0 <= i < |fields| ensures Fits(fields[i].value, depth + 1, nfc) <==> WithinBounds(fields[i].value, depth + 1, nfc) {
        FitsIsWithinBounds(fields[i].value, depth + 1, nfc);
      }
      forall i | 0 <= i < |fields| ensures Utf8Length(fields[i].key) == |Utf8(fields[i].key)| { Utf8LengthIs(fields[i].key); }
      forall i, j | 0 <= i < j < |fields| ensures Precedes(fields[i].key, fields[j].key) <==> InRecordOrder(fields[i].key, fields[j].key) {
        OrderIs(fields[i].key, fields[j].key);
      }
    case _ =>
  }
}
