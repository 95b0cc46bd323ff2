/** The bounded JSON scanner and its canonical printer as functions (`checked-flow-artifact.ts`,
    JsonScanner and canonicalJson), and the proof that they undo each other. */
module CanonicalJson {
  import opened Folding
  import opened DigitText
  import opened JsonText

  datatype Json =
    | Null
    | Bool(b: bool)
    | Num(n: int)
    | Str(s: Text)
    | Arr(items: seq<Json>)
    | Obj(fields: seq<Field>)

  /** Fields stand in the order in which the record enumerates them. */
  datatype Field = Field(key: Text, value: Json)

  const MAX_DEPTH: nat := 64
  const MAX_VALUES: nat := 16384
  const MAX_ARRAY_ITEMS: nat := 8192
  const MAX_RECORD_FIELDS: nat := 32

  const TRUE_TEXT: Text := [0x74, 0x72, 0x75, 0x65]
  const FALSE_TEXT: Text := [0x66, 0x61, 0x6c, 0x73, 0x65]
  const NULL_TEXT: Text := [0x6e, 0x75, 0x6c, 0x6c]
  const OPEN_ARRAY: Unit := 0x5b
  const CLOSE_ARRAY: Unit := 0x5d
  const OPEN_OBJECT: Unit := 0x7b
  const CLOSE_OBJECT: Unit := 0x7d
  const COMMA: Unit := 0x2c
  const COLON: Unit := 0x3a

  // ----- The printer -----

  function Print(v: Json): Text {
    match v
    case Null => NULL_TEXT
    case Bool(b) => if b then TRUE_TEXT else FALSE_TEXT
    case Num(n) => NumberText(n)
    case Str(s) => Quote(s)
    case Arr(items) => [OPEN_ARRAY] + PrintItems(items) + [CLOSE_ARRAY]
    case Obj(fields) => [OPEN_OBJECT] + PrintFields(fields) + [CLOSE_OBJECT]
  }

  function PrintItems(items: seq<Json>): Text {
    if items == [] then []
    else if |items| == 1 then Print(items[0])
    else Print(items[0]) + [COMMA] + PrintItems(items[1..])
  }

  function PrintField(f: Field): Text {
    Quote(f.key) + [COLON] + Print(f.value)
  }

  function PrintFields(fields: seq<Field>): Text {
    if fields == [] then []
    else if |fields| == 1 then PrintField(fields[0])
    else PrintField(fields[0]) + [COMMA] + PrintFields(fields[1..])
  }

  // ----- Records -----

  /** A key that names an array index is enumerated before the others, in numeric order. */
  predicate IsIndex(key: Text) {
    && key != [] && (forall i :: 0 <= i < |key| ==> IsDigit(key[i]))
    && (|key| == 1 || key[0] != ZERO) && DigitsValue(key) <= 4294967294
  }

  predicate Precedes(a: Text, b: Text) {
    IsIndex(b) ==> IsIndex(a) && DigitsValue(a) <= DigitsValue(b)
  }

  predicate HasKey(fields: seq<Field>, key: Text) {
    exists i :: 0 <= i < |fields| && fields[i].key == key
  }

  /** Add a field with a new key where the record will enumerate it. */
  function Put(fields: seq<Field>, f: Field): seq<Field> {
    if fields == [] || Precedes(fields[|fields| - 1].key, f.key) then fields + [f]
    else Put(fields[..|fields| - 1], f) + [fields[|fields| - 1]]
  }

  // ----- The bounds a value must keep -----

  predicate Fits(v: Json, depth: nat, nfc: Text -> bool) {
    && depth <= MAX_DEPTH
    && match v
       case Null => true
       case Bool(_) => true
       case Num(n) => -MAX_SAFE <= n <= MAX_SAFE
       case Str(s) => Admissible(s, nfc)
       case Arr(items) => |items| <= MAX_ARRAY_ITEMS && ItemsFit(items, depth + 1, nfc)
       case Obj(fields) => |fields| <= MAX_RECORD_FIELDS && FieldsFit(fields, depth + 1, nfc)
  }

  predicate ItemsFit(items: seq<Json>, depth: nat, nfc: Text -> bool) {
    forall i :: 0 <= i < |items| ==> Fits(items[i], depth, nfc)
  }

  predicate FieldsFit(fields: seq<Field>, depth: nat, nfc: Text -> bool) {
    && (forall i :: 0 <= i < |fields| ==> Admissible(fields[i].key, nfc) && Fits(fields[i].value, depth, nfc))
    && (forall i, j :: 0 <= i < j < |fields| ==> fields[i].key != fields[j].key && Precedes(fields[i].key, fields[j].key))
  }

  /** How many values the scanner counts. */
  function Count(v: Json): nat {
    match v
    case Arr(items) => 1 + CountItems(items)
    case Obj(fields) => 1 + CountFields(fields)
    case Null => 1
    case Bool(_) => 1
    case Num(_) => 1
    case Str(_) => 1
  }

  function CountItems(items: seq<Json>): nat {
    if items == [] then 0 else Count(items[0]) + CountItems(items[1..])
  }

  function CountFields(fields: seq<Field>): nat {
    if fields == [] then 0 else Count(fields[0].value) + CountFields(fields[1..])
  }

  // ----- The scanner -----

  /** A value, what is left of the text and how many values have been spent, or a refusal. */
  datatype Scan = Scan(value: Json, rest: Text, spent: nat) | Stop(code: string)

  predicate StartsWith(t: Text, literal: Text) {
    |literal| <= |t| && t[..|literal|] == literal
  }

  function ReadValue(t: Text, spent: nat, depth: nat, nfc: Text -> bool): (r: Scan)
    ensures r.Scan? ==> |r.rest| < |t|
    decreases |t|, 0
  {
    if depth > MAX_DEPTH then Stop("JSON_DEPTH_BOUND")
    else if spent + 1 > MAX_VALUES then Stop("JSON_VALUE_BOUND")
    else if t == [] then Stop("JSON_TOKEN")
    else if t[0] == OPEN_OBJECT then ReadObject(t[1..], spent + 1, depth, nfc)
    else if t[0] == OPEN_ARRAY then ReadArray(t[1..], spent + 1, depth, nfc)
    else if t[0] == QUOTE then ScanOfString(ReadString(t, nfc), spent + 1)
    else if StartsWith(t, TRUE_TEXT) then Scan(Bool(true), t[4..], spent + 1)
    else if StartsWith(t, FALSE_TEXT) then Scan(Bool(false), t[5..], spent + 1)
    else if StartsWith(t, NULL_TEXT) then Scan(Null, t[4..], spent + 1)
    else ScanOfNumber(ReadNumber(t), spent + 1)
  }

  function ScanOfString(r: Read<Text>, spent: nat): Scan {
    match r
    case Read(s, rest) => Scan(Str(s), rest, spent)
    case Refused(code) => Stop(code)
  }

  function ScanOfNumber(r: Read<int>, spent: nat): Scan {
    match r
    case Read(n, rest) => Scan(Num(n), rest, spent)
    case Refused(code) => Stop(code)
  }

  function ReadArray(t: Text, spent: nat, depth: nat, nfc: Text -> bool): (r: Scan)
    ensures r.Scan? ==> |r.rest| < |t|
    decreases |t|, 2
  {
    if t != [] && t[0] == CLOSE_ARRAY then Scan(Arr([]), t[1..], spent) else ReadItems(t, spent, depth, [], nfc)
  }

  /** Read items, each followed by a comma or the closing bracket. */
  function ReadItems(t: Text, spent: nat, depth: nat, before: seq<Json>, nfc: Text -> bool): (r: Scan)
    ensures r.Scan? ==> |r.rest| < |t|
    decreases |t|, 1
  {
    if |before| >= MAX_ARRAY_ITEMS then Stop("JSON_ARRAY_BOUND")
    else
      match ReadValue(t, spent, depth + 1, nfc)
      case Stop(code) => Stop(code)
      case Scan(v, rest, spent') =>
        if rest != [] && rest[0] == CLOSE_ARRAY then Scan(Arr(before + [v]), rest[1..], spent')
        else if rest != [] && rest[0] == COMMA then ReadItems(rest[1..], spent', depth, before + [v], nfc)
        else Stop("JSON_ARRAY")
  }

  function ReadObject(t: Text, spent: nat, depth: nat, nfc: Text -> bool): (r: Scan)
    ensures r.Scan? ==> |r.rest| < |t|
    decreases |t|, 2
  {
    if t != [] && t[0] == CLOSE_OBJECT then Scan(Obj([]), t[1..], spent) else ReadFields(t, spent, depth, [], nfc)
  }

  /** Read a quoted key that is not there yet, and its colon. */
  function ReadKey(t: Text, before: seq<Field>, nfc: Text -> bool): (r: Read<Text>)
    ensures r.Read? ==> |r.rest| < |t|
  {
    if t == [] || t[0] != QUOTE then Refused("JSON_OBJECT_KEY")
    else
      match ReadString(t, nfc)
      case Refused(code) => Refused(code)
      case Read(key, rest) =>
        if HasKey(before, key) then Refused("JSON_DUPLICATE_KEY")
        else if rest == [] || rest[0] != COLON then Refused("JSON_OBJECT_COLON")
        else Read(key, rest[1..])
  }

  /** Read fields, each followed by a comma or the closing brace. */
  function ReadFields(t: Text, spent: nat, depth: nat, before: seq<Field>, nfc: Text -> bool): (r: Scan)
    ensures r.Scan? ==> |r.rest| < |t|
    decreases |t|, 1
  {
    if |before| >= MAX_RECORD_FIELDS then Stop("JSON_FIELD_BOUND")
    else
      match ReadKey(t, before, nfc)
      case Refused(code) => Stop(code)
      case Read(key, afterKey) =>
        match ReadValue(afterKey, spent, depth + 1, nfc)
        case Stop(code) => Stop(code)
        case Scan(v, rest, spent') =>
          if rest != [] && rest[0] == CLOSE_OBJECT then Scan(Obj(Put(before, Field(key, v))), rest[1..], spent')
          else if rest != [] && rest[0] == COMMA then ReadFields(rest[1..], spent', depth, Put(before, Field(key, v)), nfc)
          else Stop("JSON_OBJECT")
  }

  datatype Parsed = Parsed(value: Json) | NotParsed(code: string)

  function Parse(t: Text, nfc: Text -> bool): Parsed {
    match ReadValue(t, 0, 1, nfc)
    case Stop(code) => NotParsed(code)
    case Scan(v, rest, _) => if rest == [] then Parsed(v) else NotParsed("JSON_TRAILING")
  }

  // ----- What is printed scans back -----

  // The outcomes of the reading functions, folded.

  ghost predicate ValueGives(t: Text, spent: nat, depth: nat, nfc: Text -> bool, r: Scan) {
    forall key {:trigger Unlock(key)} :: Unlock(key) ==> ReadValue(t, spent, depth, nfc) == r
  }

  ghost predicate ArrayGives(t: Text, spent: nat, depth: nat, nfc: Text -> bool, r: Scan) {
    forall key {:trigger Unlock(key)} :: Unlock(key) ==> ReadArray(t, spent, depth, nfc) == r
  }

  ghost predicate ItemsGive(t: Text, spent: nat, depth: nat, before: seq<Json>, nfc: Text -> bool, r: Scan) {
    forall key {:trigger Unlock(key)} :: Unlock(key) ==> ReadItems(t, spent, depth, before, nfc) == r
  }

  ghost predicate ObjectGives(t: Text, spent: nat, depth: nat, nfc: Text -> bool, r: Scan) {
    forall key {:trigger Unlock(key)} :: Unlock(key) ==> ReadObject(t, spent, depth, nfc) == r
  }

  ghost predicate FieldsGive(t: Text, spent: nat, depth: nat, before: seq<Field>, nfc: Text -> bool, r: Scan) {
    forall key {:trigger Unlock(key)} :: Unlock(key) ==> ReadFields(t, spent, depth, before, nfc) == r
  }

  ghost predicate Separated(post: Text) {
    post != [] ==> !IsDigit(post[0])
  }

  /** A printed value starts like none of the closing marks. */
  lemma PrintStarts(v: Json)
    ensures Print(v) != [] && Print(v)[0] != CLOSE_ARRAY && Print(v)[0] != CLOSE_OBJECT
  {
    if v.Num? { NumberStarts(v.n); }
  }

  lemma NumberStarts(n: int)
    ensures NumberText(n) != [] && (NumberText(n)[0] == MINUS || IsDigit(NumberText(n)[0]))
  {
    DigitsRoundTrip(if n < 0 then -n else n);
  }

  lemma NumberScans(n: int, post: Text, spent: nat, depth: nat, nfc: Text -> bool)
    requires -MAX_SAFE <= n <= MAX_SAFE && depth <= MAX_DEPTH && spent + 1 <= MAX_VALUES && Separated(post)
    ensures ValueGives(NumberText(n) + post, spent, depth, nfc, Scan(Num(n), post, spent + 1))
  {
    NumberStarts(n);
    NumberRoundTrip(n, post);
    var t := NumberText(n) + post;
    assert t[0] == NumberText(n)[0];
    assert !StartsWith(t, TRUE_TEXT) && !StartsWith(t, FALSE_TEXT) && !StartsWith(t, NULL_TEXT) by {
      assert TRUE_TEXT[0] == 0x74 && FALSE_TEXT[0] == 0x66 && NULL_TEXT[0] == 0x6e;
    }
  }

  lemma StringScans(s: Text, post: Text, spent: nat, depth: nat, nfc: Text -> bool)
    requires Admissible(s, nfc) && depth <= MAX_DEPTH && spent + 1 <= MAX_VALUES
    ensures ValueGives(Quote(s) + post, spent, depth, nfc, Scan(Str(s), post, spent + 1))
  {
    QuoteRoundTrip(s, post, nfc);
    assert (Quote(s) + post)[0] == QUOTE;
  }

  lemma LiteralParts(literal: Text, post: Text)
    ensures (literal + post)[..|literal|] == literal && (literal + post)[|literal|..] == post
  {}

  lemma LiteralScans(v: Json, post: Text, spent: nat, depth: nat, nfc: Text -> bool)
    requires (v.Null? || v.Bool?) && depth <= MAX_DEPTH && spent + 1 <= MAX_VALUES
    ensures ValueGives(Print(v) + post, spent, depth, nfc, Scan(v, post, spent + 1))
  {
    LiteralParts(Print(v), post);
    assert (Print(v) + post)[0] == Print(v)[0];
  }

  lemma ArrayScans(inner: Text, post: Text, spent: nat, depth: nat, nfc: Text -> bool, r: Scan)
    requires depth <= MAX_DEPTH && spent + 1 <= MAX_VALUES
    requires ArrayGives(inner + ([CLOSE_ARRAY] + post), spent + 1, depth, nfc, r)
    ensures ValueGives(([OPEN_ARRAY] + inner + [CLOSE_ARRAY]) + post, spent, depth, nfc, r)
  {
    assert (([OPEN_ARRAY] + inner + [CLOSE_ARRAY]) + post)[1..] == inner + ([CLOSE_ARRAY] + post);
  }

  lemma ObjectScans(inner: Text, post: Text, spent: nat, depth: nat, nfc: Text -> bool, r: Scan)
    requires depth <= MAX_DEPTH && spent + 1 <= MAX_VALUES
    requires ObjectGives(inner + ([CLOSE_OBJECT] + post), spent + 1, depth, nfc, r)
    ensures ValueGives(([OPEN_OBJECT] + inner + [CLOSE_OBJECT]) + post, spent, depth, nfc, r)
  {
    assert (([OPEN_OBJECT] + inner + [CLOSE_OBJECT]) + post)[1..] == inner + ([CLOSE_OBJECT] + post);
  }

  lemma {:induction false} ValueRoundTrip(v: Json, post: Text, spent: nat, depth: nat, nfc: Text -> bool)
    requires Fits(v, depth, nfc) && spent + Count(v) <= MAX_VALUES && Separated(post)
    ensures ValueGives(Print(v) + post, spent, depth, nfc, Scan(v, post, spent + Count(v)))
    decreases v, 1
  {
    match v
    case Arr(items) =>
      ArrayRoundTrip(items, post, spent + 1, depth, nfc);
      ArrayScans(PrintItems(items), post, spent, depth, nfc, Scan(v, post, spent + Count(v)));
    case Obj(fields) =>
      ObjectRoundTrip(fields, post, spent + 1, depth, nfc);
      ObjectScans(PrintFields(fields), post, spent, depth, nfc, Scan(v, post, spent + Count(v)));
    case Num(n) => NumberScans(n, post, spent, depth, nfc);
    case Str(s) => StringScans(s, post, spent, depth, nfc);
    case Null => LiteralScans(v, post, spent, depth, nfc);
    case Bool(_) => LiteralScans(v, post, spent, depth, nfc);
  }

  lemma EmptyArray(post: Text, spent: nat, depth: nat, nfc: Text -> bool)
    ensures ArrayGives([] + ([CLOSE_ARRAY] + post), spent, depth, nfc, Scan(Arr([]), post, spent))
  {
    assert [] + ([CLOSE_ARRAY] + post) == [CLOSE_ARRAY] + post;
  }

  lemma FilledArray(t: Text, spent: nat, depth: nat, nfc: Text -> bool, r: Scan)
    requires t != [] && t[0] != CLOSE_ARRAY && ItemsGive(t, spent, depth, [], nfc, r)
    ensures ArrayGives(t, spent, depth, nfc, r)
  {}

  lemma {:induction false} ArrayRoundTrip(items: seq<Json>, post: Text, spent: nat, depth: nat, nfc: Text -> bool)
    requires |items| <= MAX_ARRAY_ITEMS && ItemsFit(items, depth + 1, nfc) && spent + CountItems(items) <= MAX_VALUES
    ensures ArrayGives(PrintItems(items) + ([CLOSE_ARRAY] + post), spent, depth, nfc, Scan(Arr(items), post, spent + CountItems(items)))
    decreases items, 2
  {
    if items == [] {
      EmptyArray(post, spent, depth, nfc);
    } else {
      PrintStarts(items[0]);
      ItemsRoundTrip(items, [], post, spent, depth, nfc);
      assert [] + items == items;
      FilledArray(PrintItems(items) + ([CLOSE_ARRAY] + post), spent, depth, nfc, Scan(Arr(items), post, spent + CountItems(items)));
    }
  }

  /** One item and its comma. */
  lemma ItemThenMore(t: Text, v: Json, more: Text, spent: nat, spent': nat, depth: nat, before: seq<Json>, nfc: Text -> bool, r: Scan)
    requires |before| < MAX_ARRAY_ITEMS && ValueGives(t, spent, depth + 1, nfc, Scan(v, [COMMA] + more, spent'))
    requires ItemsGive(more, spent', depth, before + [v], nfc, r)
    ensures ItemsGive(t, spent, depth, before, nfc, r)
  {
    assert Unlock(true);
    assert ([COMMA] + more)[1..] == more;
  }

  /** The last item and the closing bracket. */
  lemma ItemThenClose(t: Text, v: Json, post: Text, spent: nat, spent': nat, depth: nat, before: seq<Json>, nfc: Text -> bool)
    requires |before| < MAX_ARRAY_ITEMS && ValueGives(t, spent, depth + 1, nfc, Scan(v, [CLOSE_ARRAY] + post, spent'))
    ensures ItemsGive(t, spent, depth, before, nfc, Scan(Arr(before + [v]), post, spent'))
  {
    assert Unlock(true);
    assert ([CLOSE_ARRAY] + post)[1..] == post;
  }

  lemma Regroup3(a: Text, x: Unit, b: Text, c: Text)
    ensures (a + [x] + b) + c == a + ([x] + (b + c))
  {}

  lemma {:induction false} ItemsRoundTrip(items: seq<Json>, before: seq<Json>, post: Text, spent: nat, depth: nat, nfc: Text -> bool)
    requires items != [] && |before| + |items| <= MAX_ARRAY_ITEMS && ItemsFit(items, depth + 1, nfc)
    requires spent + CountItems(items) <= MAX_VALUES
    ensures ItemsGive(PrintItems(items) + ([CLOSE_ARRAY] + post), spent, depth, before, nfc,
                      Scan(Arr(before + items), post, spent + CountItems(items)))
    decreases items, 1
  {
    var v, close := items[0], [CLOSE_ARRAY] + post;
    if |items| == 1 {
      ValueRoundTrip(v, close, spent, depth + 1, nfc);
      ItemThenClose(Print(v) + close, v, post, spent, spent + Count(v), depth, before, nfc);
      assert items == [v] && CountItems(items[1..]) == 0;
    } else {
      var more := PrintItems(items[1..]) + close;
      Regroup3(Print(v), COMMA, PrintItems(items[1..]), close);
      ValueRoundTrip(v, [COMMA] + more, spent, depth + 1, nfc);
      ItemsRoundTrip(items[1..], before + [v], post, spent + Count(v), depth, nfc);
      assert before + [v] + items[1..] == before + items;
      ItemThenMore(Print(v) + ([COMMA] + more), v, more, spent, spent + Count(v), depth, before, nfc,
                   Scan(Arr(before + items), post, spent + CountItems(items)));
    }
  }

  lemma EmptyObject(post: Text, spent: nat, depth: nat, nfc: Text -> bool)
    ensures ObjectGives([] + ([CLOSE_OBJECT] + post), spent, depth, nfc, Scan(Obj([]), post, spent))
  {
    assert [] + ([CLOSE_OBJECT] + post) == [CLOSE_OBJECT] + post;
  }

  lemma FilledObject(t: Text, spent: nat, depth: nat, nfc: Text -> bool, r: Scan)
    requires t != [] && t[0] != CLOSE_OBJECT && FieldsGive(t, spent, depth, [], nfc, r)
    ensures ObjectGives(t, spent, depth, nfc, r)
  {}

  lemma {:induction false} ObjectRoundTrip(fields: seq<Field>, post: Text, spent: nat, depth: nat, nfc: Text -> bool)
    requires |fields| <= MAX_RECORD_FIELDS && FieldsFit(fields, depth + 1, nfc) && spent + CountFields(fields) <= MAX_VALUES
    ensures ObjectGives(PrintFields(fields) + ([CLOSE_OBJECT] + post), spent, depth, nfc, Scan(Obj(fields), post, spent + CountFields(fields)))
    decreases fields, 2
  {
    if fields == [] {
      EmptyObject(post, spent, depth, nfc);
    } else {
      FieldsStart(fields);
      assert [] + fields == fields;
      FieldsRoundTrip(fields, [], fields, PrintFields(fields) + ([CLOSE_OBJECT] + post), post, spent, spent + CountFields(fields), depth, nfc);
      FilledObject(PrintFields(fields) + ([CLOSE_OBJECT] + post), spent, depth, nfc, Scan(Obj(fields), post, spent + CountFields(fields)));
    }
  }

  lemma FieldsStart(fields: seq<Field>)
    requires fields != []
    ensures PrintFields(fields) != [] && PrintFields(fields)[0] == QUOTE
  {
    assert PrintField(fields[0])[0] == QUOTE;
  }

  lemma KeyRoundTrip(key: Text, rest: Text, before: seq<Field>, nfc: Text -> bool)
    requires Admissible(key, nfc) && !HasKey(before, key)
    ensures ReadKey(Quote(key) + ([COLON] + rest), before, nfc) == Read(key, rest)
  {
    QuoteRoundTrip(key, [COLON] + rest, nfc);
  }

  /** A printed field scans up to its value. */
  lemma FieldScans(f: Field, rest: Text, before: seq<Field>, nfc: Text -> bool)
    requires Admissible(f.key, nfc) && !HasKey(before, f.key)
    ensures ReadKey(PrintField(f) + rest, before, nfc) == Read(f.key, Print(f.value) + rest)
  {
    KeyRoundTrip(f.key, Print(f.value) + rest, before, nfc);
    Regroup3(Quote(f.key), COLON, Print(f.value), rest);
  }

  /** FieldsFit, folded. */
  ghost predicate RecordFits(fields: seq<Field>, depth: nat, nfc: Text -> bool) {
    forall key {:trigger Unlock(key)} :: Unlock(key) ==> FieldsFit(fields, depth, nfc)
  }

  /** Adding the next field of an enumerated record puts it last. */
  lemma NextField(before: seq<Field>, fields: seq<Field>, all: seq<Field>, depth: nat, nfc: Text -> bool)
    requires fields != [] && all == before + fields && RecordFits(all, depth, nfc)
    ensures Put(before, fields[0]) == before + [fields[0]] && !HasKey(before, fields[0].key)
    ensures Admissible(fields[0].key, nfc) && Fits(fields[0].value, depth, nfc)
    ensures all == before + [fields[0]] + fields[1..]
  {
    assert Unlock(true);
    var k := |before|;
    assert all[k] == fields[0];
    if k > 0 { assert all[k - 1] == before[k - 1] && Precedes(all[k - 1].key, all[k].key); }
    forall i | 0 <= i < k ensures before[i].key != fields[0].key { assert all[i] == before[i] && all[i].key != all[k].key; }
  }

  /** One field and its comma. */
  lemma FieldThenMore(f: Field, more: Text, spent: nat, spent': nat, depth: nat, before: seq<Field>, nfc: Text -> bool, r: Scan)
    requires |before| < MAX_RECORD_FIELDS && Admissible(f.key, nfc) && !HasKey(before, f.key)
    requires ValueGives(Print(f.value) + ([COMMA] + more), spent, depth + 1, nfc, Scan(f.value, [COMMA] + more, spent'))
    requires FieldsGive(more, spent', depth, Put(before, f), nfc, r)
    ensures FieldsGive(PrintField(f) + ([COMMA] + more), spent, depth, before, nfc, r)
  {
    assert Unlock(true);
    FieldScans(f, [COMMA] + more, before, nfc);
    assert ([COMMA] + more)[1..] == more;
  }

  /** The last field and the closing brace. */
  lemma FieldThenClose(f: Field, post: Text, spent: nat, spent': nat, depth: nat, before: seq<Field>, nfc: Text -> bool)
    requires |before| < MAX_RECORD_FIELDS && Admissible(f.key, nfc) && !HasKey(before, f.key)
    requires ValueGives(Print(f.value) + ([CLOSE_OBJECT] + post), spent, depth + 1, nfc, Scan(f.value, [CLOSE_OBJECT] + post, spent'))
    ensures FieldsGive(PrintField(f) + ([CLOSE_OBJECT] + post), spent, depth, before, nfc, Scan(Obj(Put(before, f)), post, spent'))
  {
    assert Unlock(true);
    FieldScans(f, [CLOSE_OBJECT] + post, before, nfc);
    assert ([CLOSE_OBJECT] + post)[1..] == post;
  }

  lemma OneFieldLeft(fields: seq<Field>, before: seq<Field>, post: Text, spent: nat, spent': nat, depth: nat, nfc: Text -> bool, r: Scan)
    requires |fields| == 1 && FieldsGive(PrintField(fields[0]) + ([CLOSE_OBJECT] + post), spent, depth, before, nfc, Scan(Obj(before + [fields[0]]), post, spent'))
    requires r == Scan(Obj(before + fields), post, spent')
    ensures FieldsGive(PrintFields(fields) + ([CLOSE_OBJECT] + post), spent, depth, before, nfc, r)
  {
    assert fields == [fields[0]];
  }

  lemma MoreFieldsLeft(fields: seq<Field>, before: seq<Field>, close: Text, spent: nat, depth: nat, nfc: Text -> bool, r: Scan)
    requires |fields| > 1 && FieldsGive(PrintField(fields[0]) + ([COMMA] + (PrintFields(fields[1..]) + close)), spent, depth, before, nfc, r)
    ensures FieldsGive(PrintFields(fields) + close, spent, depth, before, nfc, r)
  {
    Regroup3(PrintField(fields[0]), COMMA, PrintFields(fields[1..]), close);
  }

  lemma {:induction false} FieldsRoundTrip(fields: seq<Field>, before: seq<Field>, all: seq<Field>, t: Text, post: Text,
                                           spent: nat, total: nat, depth: nat, nfc: Text -> bool)
    requires fields != [] && all == before + fields && |all| <= MAX_RECORD_FIELDS && RecordFits(all, depth + 1, nfc)
    requires t == PrintFields(fields) + ([CLOSE_OBJECT] + post) && total == spent + CountFields(fields) <= MAX_VALUES
    ensures FieldsGive(t, spent, depth, before, nfc, Scan(Obj(all), post, total))
    decreases fields, 1
  {
    NextField(before, fields, all, depth + 1, nfc);
    if |fields| == 1 {
      LastFieldRoundTrip(fields, before, all, post, spent, depth, nfc);
    } else {
      var close := [CLOSE_OBJECT] + post;
      var more := PrintFields(fields[1..]) + close;
      var before', spent', r := before + [fields[0]], spent + Count(fields[0].value), Scan(Obj(all), post, total);
      MoreCounted(fields);
      FieldsRoundTrip(fields[1..], before', all, more, post, spent', total, depth, nfc);
      FirstFieldRoundTrip(fields, before, before', close, more, spent, spent', depth, nfc, r);
    }
  }

  lemma MoreCounted(fields: seq<Field>)
    requires fields != []
    ensures CountFields(fields) == Count(fields[0].value) + CountFields(fields[1..])
  {}

  /** The next field of a record may be read. */
  ghost predicate NextFits(f: Field, before: seq<Field>, depth: nat, nfc: Text -> bool) {
    && |before| < MAX_RECORD_FIELDS && Admissible(f.key, nfc) && Fits(f.value, depth, nfc)
    && !HasKey(before, f.key) && Put(before, f) == before + [f]
  }

  lemma {:induction false} LastFieldRoundTrip(fields: seq<Field>, before: seq<Field>, all: seq<Field>, post: Text, spent: nat, depth: nat, nfc: Text -> bool)
    requires |fields| == 1 && all == before + fields && NextFits(fields[0], before, depth + 1, nfc) && spent + CountFields(fields) <= MAX_VALUES
    ensures FieldsGive(PrintFields(fields) + ([CLOSE_OBJECT] + post), spent, depth, before, nfc,
                       Scan(Obj(all), post, spent + CountFields(fields)))
    decreases fields, 0
  {
    var f := fields[0];
    assert CountFields(fields) == Count(f.value) + CountFields(fields[1..]);
    ValueRoundTrip(f.value, [CLOSE_OBJECT] + post, spent, depth + 1, nfc);
    FieldThenClose(f, post, spent, spent + Count(f.value), depth, before, nfc);
    OneFieldLeft(fields, before, post, spent, spent + Count(f.value), depth, nfc, Scan(Obj(all), post, spent + CountFields(fields)));
  }

  lemma {:induction false} FirstFieldRoundTrip(fields: seq<Field>, before: seq<Field>, before': seq<Field>, close: Text, more: Text,
                                               spent: nat, spent': nat, depth: nat, nfc: Text -> bool, r: Scan)
    requires |fields| > 1 && NextFits(fields[0], before, depth + 1, nfc) && spent' == spent + Count(fields[0].value) <= MAX_VALUES
    requires before' == before + [fields[0]] && more == PrintFields(fields[1..]) + close
    requires FieldsGive(more, spent', depth, before', nfc, r)
    ensures FieldsGive(PrintFields(fields) + close, spent, depth, before, nfc, r)
    decreases fields, 0
  {
    var f := fields[0];
    ValueRoundTrip(f.value, [COMMA] + more, spent, depth + 1, nfc);
    FieldThenMore(f, more, spent, spent', depth, before, nfc, r);
    MoreFieldsLeft(fields, before, close, spent, depth, nfc, r);
  }

  /** Every value within the bounds scans back from its printed form. */
  lemma ScannerInvertsPrinter(v: Json, nfc: Text -> bool)
    requires Fits(v, 1, nfc) && Count(v) <= MAX_VALUES
    ensures Parse(Print(v), nfc) == Parsed(v)
  {
    ValueRoundTrip(v, [], 0, 1, nfc);
    assert Print(v) + [] == Print(v);
    assert Unlock(true);
  }

  /** Different values print differently. */
  lemma PrintedFormIsUnique(v: Json, w: Json, nfc: Text -> bool)
    requires Fits(v, 1, nfc) && Count(v) <= MAX_VALUES && Fits(w, 1, nfc) && Count(w) <= MAX_VALUES && Print(v) == Print(w)
    ensures v == w
  {
    ScannerInvertsPrinter(v, nfc);
    ScannerInvertsPrinter(w, nfc);
  }

  // ----- What is scanned is within the bounds -----

  lemma ReadStringFits(t: Text, nfc: Text -> bool)
    requires t != [] && ReadString(t, nfc).Read?
    ensures Admissible(ReadString(t, nfc).value, nfc)
  {}

  lemma {:induction false} CountItemsAppend(items: seq<Json>, v: Json)
    ensures CountItems(items + [v]) == CountItems(items) + Count(v)
  {
    if items != [] {
      CountItemsAppend(items[1..], v);
      assert (items + [v])[1..] == items[1..] + [v];
    }
  }

  lemma {:induction false} CountFieldsAppend(fields: seq<Field>, f: Field)
    ensures CountFields(fields + [f]) == CountFields(fields) + Count(f.value)
  {
    if fields != [] {
      CountFieldsAppend(fields[1..], f);
      assert (fields + [f])[1..] == fields[1..] + [f];
    }
  }

  lemma {:induction false} PutCounts(fields: seq<Field>, f: Field)
    ensures CountFields(Put(fields, f)) == CountFields(fields) + Count(f.value) && |Put(fields, f)| == |fields| + 1
  {
    if fields == [] || Precedes(fields[|fields| - 1].key, f.key) {
      CountFieldsAppend(fields, f);
    } else {
      var init, last := fields[..|fields| - 1], fields[|fields| - 1];
      PutCounts(init, f);
      assert fields == init + [last];
      CountFieldsAppend(init, last);
      CountFieldsAppend(Put(init, f), last);
    }
  }

  lemma {:induction false} PutElements(fields: seq<Field>, f: Field)
    ensures forall x :: x in Put(fields, f) ==> x == f || x in fields
  {
    if !(fields == [] || Precedes(fields[|fields| - 1].key, f.key)) { PutElements(fields[..|fields| - 1], f); }
  }

  ghost predicate InOrder(fields: seq<Field>) {
    forall i, j :: 0 <= i < j < |fields| ==> fields[i].key != fields[j].key && Precedes(fields[i].key, fields[j].key)
  }

  /** Adding a new key keeps a record's fields in order. */
  lemma {:induction false} PutInOrder(fields: seq<Field>, f: Field)
    requires InOrder(fields) && !HasKey(fields, f.key)
    ensures InOrder(Put(fields, f))
  {
    if fields != [] {
      var k := |fields| - 1;
      var init, last := fields[..k], fields[k];
      if Precedes(last.key, f.key) {
        forall i | 0 <= i <= k ensures Precedes(fields[i].key, f.key) && fields[i].key != f.key {}
      } else {
        PutInOrder(init, f);
        PutElements(init, f);
        forall x | x in Put(init, f) ensures Precedes(x.key, last.key) && x.key != last.key {}
      }
    }
  }

  lemma PutKeeps(fields: seq<Field>, f: Field, depth: nat, nfc: Text -> bool)
    requires FieldsFit(fields, depth, nfc) && !HasKey(fields, f.key)
    requires Admissible(f.key, nfc) && Fits(f.value, depth, nfc)
    ensures FieldsFit(Put(fields, f), depth, nfc)
  {
    PutInOrder(fields, f);
    PutElements(fields, f);
    var after := Put(fields, f);
    forall i | 0 <= i < |after| ensures Admissible(after[i].key, nfc) && Fits(after[i].value, depth, nfc) {
      assert after[i] == f || after[i] in fields;
    }
  }

  ghost predicate ScanFits(r: Scan, spent: nat, depth: nat, nfc: Text -> bool) {
    r.Scan? ==> Fits(r.value, depth, nfc) && r.spent == spent + Count(r.value) <= MAX_VALUES
  }

  lemma LeafReadFits(t: Text, spent: nat, depth: nat, nfc: Text -> bool)
    requires t != [] ==> t[0] != OPEN_OBJECT && t[0] != OPEN_ARRAY
    ensures ScanFits(ReadValue(t, spent, depth, nfc), spent, depth, nfc)
  {
    if t != [] && t[0] == QUOTE && ReadString(t, nfc).Read? { ReadStringFits(t, nfc); }
  }

  lemma {:induction false} ReadFits(t: Text, spent: nat, depth: nat, nfc: Text -> bool)
    ensures ScanFits(ReadValue(t, spent, depth, nfc), spent, depth, nfc)
    decreases |t|, 0
  {
    if t != [] && t[0] == OPEN_OBJECT {
      ObjectReadFits(t[1..], spent + 1, depth, nfc);
    } else if t != [] && t[0] == OPEN_ARRAY {
      ArrayReadFits(t[1..], spent + 1, depth, nfc);
    } else {
      LeafReadFits(t, spent, depth, nfc);
    }
  }

  lemma {:induction false} ObjectReadFits(t: Text, spent: nat, depth: nat, nfc: Text -> bool)
    ensures var r := ReadObject(t, spent, depth, nfc);
      depth <= MAX_DEPTH && spent <= MAX_VALUES && r.Scan? ==> Fits(r.value, depth, nfc) && r.spent + 1 == spent + Count(r.value) && r.spent <= MAX_VALUES
    decreases |t|, 2
  {
    if !(t != [] && t[0] == CLOSE_OBJECT) && spent <= MAX_VALUES && ReadFields(t, spent, depth, [], nfc).Scan? {
      FieldsReadFit(t, spent, depth, [], nfc);
    }
  }

  lemma {:induction false} ArrayReadFits(t: Text, spent: nat, depth: nat, nfc: Text -> bool)
    ensures var r := ReadArray(t, spent, depth, nfc);
      depth <= MAX_DEPTH && spent <= MAX_VALUES && r.Scan? ==> Fits(r.value, depth, nfc) && r.spent + 1 == spent + Count(r.value) && r.spent <= MAX_VALUES
    decreases |t|, 2
  {
    if !(t != [] && t[0] == CLOSE_ARRAY) && spent <= MAX_VALUES && ReadItems(t, spent, depth, [], nfc).Scan? {
      ItemsReadFit(t, spent, depth, [], nfc);
    }
  }

  lemma {:induction false} ItemsReadFit(t: Text, spent: nat, depth: nat, before: seq<Json>, nfc: Text -> bool)
    requires ReadItems(t, spent, depth, before, nfc).Scan? && ItemsFit(before, depth + 1, nfc) && spent <= MAX_VALUES
    ensures var r := ReadItems(t, spent, depth, before, nfc);
      && r.value.Arr? && |r.value.items| <= MAX_ARRAY_ITEMS && ItemsFit(r.value.items, depth + 1, nfc)
      && r.spent + CountItems(before) == spent + CountItems(r.value.items) && r.spent <= MAX_VALUES
    decreases |t|, 1
  {
    ReadFits(t, spent, depth + 1, nfc);
    var one := ReadValue(t, spent, depth + 1, nfc);
    CountItemsAppend(before, one.value);
    if one.rest[0] == COMMA { ItemsReadFit(one.rest[1..], one.spent, depth, before + [one.value], nfc); }
  }

  lemma {:induction false} FieldsReadFit(t: Text, spent: nat, depth: nat, before: seq<Field>, nfc: Text -> bool)
    requires ReadFields(t, spent, depth, before, nfc).Scan? && FieldsFit(before, depth + 1, nfc) && spent <= MAX_VALUES
    ensures var r := ReadFields(t, spent, depth, before, nfc);
      && r.value.Obj? && |r.value.fields| <= MAX_RECORD_FIELDS && FieldsFit(r.value.fields, depth + 1, nfc)
      && r.spent + CountFields(before) == spent + CountFields(r.value.fields) && r.spent <= MAX_VALUES
    decreases |t|, 1
  {
    var k := ReadKey(t, before, nfc);
    ReadStringFits(t, nfc);
    ReadFits(k.rest, spent, depth + 1, nfc);
    var one := ReadValue(k.rest, spent, depth + 1, nfc);
    var f := Field(k.value, one.value);
    PutKeeps(before, f, depth + 1, nfc);
    PutCounts(before, f);
    if one.rest[0] == COMMA { FieldsReadFit(one.rest[1..], one.spent, depth, Put(before, f), nfc); }
  }

  /** Whatever text is accepted, its value is within the bounds and its printed form scans to the same value. */
  lemma AcceptedTextReprints(t: Text, nfc: Text -> bool)
    requires Parse(t, nfc).Parsed?
    ensures Fits(Parse(t, nfc).value, 1, nfc) && Count(Parse(t, nfc).value) <= MAX_VALUES
    ensures Parse(Print(Parse(t, nfc).value), nfc) == Parse(t, nfc)
  {
    ReadFits(t, 0, 1, nfc);
    ScannerInvertsPrinter(Parse(t, nfc).value, nfc);
  }
}
